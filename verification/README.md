# Portfolio platform — a Dafny model of its decision logic

The repository has three parts:

- a personal portfolio site whose Spring Boot backend exists in two generations: the current `com.personal.portfolio` and the older `com.portfolio.portfolio`;
- an Angular frontend;
- a Python setup tool that reconciles a workstation against a catalogue of applications.

This project models the logic of all three that does not depend on effects.

The setup tool (`AppManager`) is modelled as a reconciliation engine:
- it checks each tool and records "Installed" or "Not Installed";
- it gates start-up on the package manager for the operating system;
- it installs the selected tools in order with the per-OS install command;
- it re-checks the whole catalogue afterwards;
- every event goes to an append-only audit log.

From the backend, the project models:
- e-mail validation, sanitising, status accounting, bulk sending, the reset token and the scheduling delay (`EmailService`, `EmailController`);
- signup and login with their status and error-code mapping (`AuthenticationService`, `AuthenticationController`);
- the JWT signing-key lifecycle of both generations (`JwtKeys`, `JwtService`, `LegacyJwtService`) over claim-record tokens;
- the three JWT filters and the two rate-limiting filters (`JwtAuthenticationFilter`, `SecurityJwtAuthenticationFilter`, `LegacyJwtAuthenticationFilter`, `RateLimitingFilter`, `SecurityRateLimitingFilter`);
- the user store with its JPQL bulk updates (`UserRepository`), both user services, the user controller, the account-status predicates and the role lookup under Java's case mapping;
- the Bean Validation constraints on request bodies, on the user entity at save time, and on the mail service's parameters behind its validating proxy (`BeanValidation`);
- the profile merge, administrator seeding and the bcrypt properties.

From the frontend, it models the quiz, the skills carousel, the navigation bar, the home pager, the HTTP interceptor and the route guard.

Effects are parameters. The shell, the mail transport, random bytes, UUIDs, the password encoder, the authentication manager's verdict, Hibernate's `@Email` pattern (`isEmail`), its `@URL` check (`isUrl`) and the page layout are all oracles passed in by the caller. Every instant is a whole number of milliseconds since the epoch, and `now` is an argument. Java exceptions are a `Result` carrying an `Errors.Exc`, and the subclass relations that the `catch` clauses rely on are written out. Base64 follows sections 4 and 5 of RFC 4648. Bearer extraction follows section 2.1 of RFC 6750, and the 429 answer follows section 4 of RFC 6585.

## Model

| member | source | states |
|---|---|---|
| AppManager.Log | scripts/app_manager.py:20-24 | `log_message` appends exactly one line to the audit log and touches nothing else |
| AppManager.Show | scripts/app_manager.py:145 | a message box is appended to the notices shown, and the shell, commands and log are untouched |
| AppManager.RunCommand | scripts/app_manager.py:27-32 | success iff the process exited with code 0; an exception becomes failure with empty output and the exception text; the command is issued exactly once |
| AppManager.VersionQuery | scripts/app_manager.py:36-40 | the version query is non-empty exactly for windows, macos and linux, and is choco -v, brew --version or apt --version respectively |
| AppManager.CheckPackageManager | scripts/app_manager.py:35-42 | reports whether the version query succeeded, issues exactly that one command (the empty command for an unknown key) and logs nothing |
| AppManager.InstallPackageManager | scripts/app_manager.py:45-63 | a bootstrap command runs only on windows and macos, each after its log line; any other name logs the unsupported message, shows an error and runs nothing |
| AppManager.CheckApplicationInstalled | scripts/app_manager.py:66-68 | installed iff the check command succeeds; exactly that command runs |
| AppManager.InstallApplication | scripts/app_manager.py:71-79 | exactly one command; the log gains the Installing line and then the one outcome line, which is also the returned message: success text iff the command succeeded, else the error with stderr |
| AppManager.CheckCommands | scripts/app_manager.py:152-153 | the check commands of the catalogue in catalogue order |
| AppManager.CheckedLines | scripts/app_manager.py:155 | one Checked application line per row, in row order |
| AppManager.CheckAll | scripts/app_manager.py:152-155 | one row and one log line per catalogue entry; the commands issued are the check commands in catalogue order |
| AppManager.CheckAllRows | scripts/app_manager.py:152-155 | row i carries entry i's name and description and says Installed iff entry i's check command succeeded in the world the earlier checks left |
| AppManager.ReadOnlyWorldStays | scripts/app_manager.py:66-68 | with a shell whose commands change nothing, every check runs in the starting world |
| AppManager.CheckAllIsIdempotent | scripts/app_manager.py:152-155 | with read-only check commands, checking the same catalogue twice yields the same table |
| AppManager.LoadApplications | scripts/app_manager.py:143-155 | a missing file shows and logs one error, runs nothing and keeps catalogue and table; otherwise the catalogue is replaced and the table gets one row per entry |
| AppManager.DetectOs | scripts/app_manager.py:93 | same length as the system name; each character lower-cased ASCII-wise, with no upper-case ASCII letter left |
| AppManager.PackageManagerGate | scripts/app_manager.py:97-108 | only windows and macos are gated; a missing manager is installed on yes and leads to quit on no; quit is requested only when the user declined |
| AppManager.Startup | scripts/app_manager.py:83-130 | detect, gate, then load: the catalogue is loaded even when quit was requested, and the quit flag is the gate's answer |
| AppManager.FindByName | scripts/app_manager.py:165-176 | the first catalogue entry with the name, as the inner loop with break finds it, or none when no entry has it |
| AppManager.InstallCommandFor | scripts/app_manager.py:167-168 | a command exists iff the OS key is present with a non-empty value (Python truthiness), and it is that value |
| AppManager.InstallOne | scripts/app_manager.py:163-176 | an unknown name does nothing; a known name without a command shows and logs the no-command error and runs nothing; otherwise exactly its install command runs |
| AppManager.InstallAll | scripts/app_manager.py:163-176 | the commands issued are the planned commands in selection order, the log only grows, by the planned number of lines; one item's failure does not stop the next |
| AppManager.InstallSelected | scripts/app_manager.py:157-179 | an empty selection only shows the No Selection notice; otherwise the selection is installed, then the table is rebuilt from the re-read catalogue |
| AppManager.InstallAllSplits | scripts/app_manager.py:163 | installing a selection in two parts is installing it in one go |
| AppManager.MacHostIsNotDetected | scripts/app_manager.py:93-103 | on a Mac the detected name is darwin, so the Homebrew gate never runs and install commands are looked up under darwin |
| AppManager.DetectOsIntended | scripts/app_manager.py:93-103 | corrected detection: Darwin maps to macos, every other system as before |
| AppManager.IntendedDetectionReachesEveryManager | scripts/app_manager.py:93-108 | with the corrected detection, Windows, Darwin and Linux each select their package manager's query and a Mac checks for Homebrew |
| Base64.CharSextet | backend/java/src/main/java/com/personal/portfolio/service/JwtService.java:170 | a decoded character maps back to itself under the alphabet table |
| Base64.CharSextetInvertsSextetChar | backend/java/src/main/java/com/personal/portfolio/service/JwtService.java:170 | the decoder's table inverts the encoder's for every sextet, in both alphabets |
| Base64.UrlSafeAlphabetAvoidsPlusAndSlash | backend/java/src/main/java/com/personal/portfolio/service/EmailService.java:238 | the URL-safe alphabet has neither '+' nor '/' nor '=' |
| Base64.EncodeUnpadded | backend/java/src/main/java/com/personal/portfolio/service/JwtService.java:76 | every character of the unpadded text is from the chosen alphabet |
| Base64.UnpaddedLength | backend/java/src/main/java/com/personal/portfolio/service/JwtService.java:76 | n bytes give ceil(4n/3) unpadded characters |
| Base64.Padding | backend/java/src/main/java/com/personal/portfolio/service/JwtService.java:76 | the padding completes the last 4-character quantum and is all '=' |
| Base64.Encode | backend/java/src/main/java/com/personal/portfolio/service/JwtService.java:76 | the encoding is 4 * ceil(n/3) characters, each from the alphabet or '=' |
| Base64.GroupRoundTrip | backend/java/src/main/java/com/personal/portfolio/service/JwtService.java:170 | the four sextets of a 3-byte group give its bytes back |
| Base64.DecodeOneByte | backend/java/src/main/java/com/personal/portfolio/service/JwtService.java:170 | a two-character final group decodes to its one byte |
| Base64.DecodeTwoBytes | backend/java/src/main/java/com/personal/portfolio/service/JwtService.java:170 | a three-character final group decodes to its two bytes |
| Base64.DecodeGroup | backend/java/src/main/java/com/personal/portfolio/service/JwtService.java:170 | a full group decodes to its three bytes followed by the rest |
| Base64.UnpaddedRoundTrip | backend/java/src/main/java/com/personal/portfolio/service/JwtService.java:170 | decoding the unpadded encoding gives the bytes back |
| Base64.DecodeStripsTwo | backend/java/src/main/java/com/personal/portfolio/service/JwtService.java:170 | a text ending in two '=' decodes as its body |
| Base64.DecodeStripsOne | backend/java/src/main/java/com/personal/portfolio/service/JwtService.java:170 | a text ending in one '=' decodes as its body |
| Base64.DecodeStripsNone | backend/java/src/main/java/com/personal/portfolio/service/JwtService.java:170 | a text without padding decodes as itself |
| Base64.DecodeEncode | backend/java/src/main/java/com/personal/portfolio/service/JwtService.java:170 | the stored key decodes to exactly the key bytes that were encoded, in both alphabets (section 4 and 5 of RFC 4648) |
| Roles.EveryRoleListed | backend/java/src/main/java/com/personal/portfolio/model/Role.java:14-16 | the declaration-order list holds every role |
| Roles.AvailableRoles | backend/java/src/main/java/com/personal/portfolio/model/Role.java:26-33 | the cached list is the display names in declaration order joined by ", " |
| Roles.LowerDisplayNamesDistinct | backend/java/src/main/java/com/personal/portfolio/model/Role.java:26-31 | two roles with the same lower-cased display name are the same role, so the lookup table loses none |
| Roles.JavaLowerCase | backend/java/src/main/java/com/personal/portfolio/model/Role.java:53 | `String.toLowerCase` never shortens a text and, on a text without capital I with dot above, lower-cases character by character |
| Roles.JavaLowerCaseMatchesAscii | backend/java/src/main/java/com/personal/portfolio/model/Role.java:53 | against a key of ASCII small letters without k, Java's full lower-casing matches exactly when lower-casing ASCII letters alone does |
| Roles.FromDisplayName | backend/java/src/main/java/com/personal/portfolio/model/Role.java:51-58 | null throws NullPointerException; a name equal to a display name up to the case of ASCII letters yields that role; any other name throws IllegalArgumentException naming it and listing the available roles |
| Roles.DisplayNameRoundTrip | backend/java/src/main/java/com/personal/portfolio/model/Role.java:35-58 | every role's display name reads back as that role |
| Roles.FromDisplayNameIgnoresCase | backend/java/src/main/java/com/personal/portfolio/model/Role.java:53 | a name and its lower-cased form find the same role or both fail |
| Roles.FromJson | backend/java/src/main/java/com/personal/portfolio/model/Role.java:63-66 | request bodies accept exactly the names the lookup accepts, for the same role |
| Roles.SameIgnoringCaseIsFoldEqual | backend/java/src/main/java/com/portfolio/portfolio/model/Role.java:39 | two characters are equal ignoring case iff their folds (lower case of the upper case) are equal |
| Roles.EqualsIgnoreCaseIsFoldEqual | backend/java/src/main/java/com/portfolio/portfolio/model/Role.java:39 | equalsIgnoreCase on strings is equality of the folded forms |
| Roles.FoldedMatchesLower | backend/java/src/main/java/com/portfolio/portfolio/model/Role.java:39 | on a name free of dotless i, long s and capital I with dot above, folding and ASCII lower-casing agree on every comparison with a lower-cased display name |
| Roles.FirstMatching | backend/java/src/main/java/com/portfolio/portfolio/model/Role.java:38-42 | the first role in declaration order whose display name matches ignoring case, or none when none matches |
| Roles.LegacyFromDisplayName | backend/java/src/main/java/com/portfolio/portfolio/model/Role.java:33-45 | legacy lookup: null throws IllegalArgumentException, a matching name yields its role, any other name throws NoSuchElementException |
| Roles.GenerationsAgree | backend/java/src/main/java/com/portfolio/portfolio/model/Role.java:33-45 | on names free of dotless i, long s and capital I with dot above, the two generations accept the same names and map them to the same role; only the exception for a bad name differs |
| Roles.GenerationsDifferOn | backend/java/src/main/java/com/portfolio/portfolio/model/Role.java:33-45 | a name that folds onto a display name through one of those three characters is accepted by the legacy lookup and refused by the current one |
| Roles.DotlessIParts | backend/java/src/main/java/com/portfolio/portfolio/model/Role.java:39 | "Admın" is Admin to the legacy lookup and unknown to the current one |
| Roles.DottedCapitalIParts | backend/java/src/main/java/com/portfolio/portfolio/model/Role.java:39 | "AdmİN" is Admin to the legacy lookup and unknown to the current one |
| Roles.LongSParts | backend/java/src/main/java/com/portfolio/portfolio/model/Role.java:39 | "Uſer" is User to the legacy lookup and unknown to the current one |
| Users.Authorities | backend/java/src/main/java/com/personal/portfolio/model/User.java:113-116 | exactly one authority, ROLE_ followed by the role's constant name; a user without a role throws NullPointerException |
| Users.AuthoritiesDetermineRole | backend/java/src/main/java/com/personal/portfolio/model/User.java:113-116 | users with equal authorities have equal roles |
| Users.AccountExpiresAfterOneYear | backend/java/src/main/java/com/personal/portfolio/model/User.java:118-123 | an unexpired-flagged account is unexpired at creation, expired exactly 365 days later, and stays expired |
| Users.InactivityDisables | backend/java/src/main/java/com/personal/portfolio/model/User.java:135-141 | with no recorded login the account is enabled iff the flag is set; a last login at or before the six-month cut-off disables it whatever the flag says |
| Users.HashPassword | backend/java/src/main/java/com/personal/portfolio/model/User.java:100-107 | a present password not starting with $2 is replaced by its encoding; a null or already-hashed password and every other field are kept |
| Users.HashPasswordIdempotent | backend/java/src/main/java/com/personal/portfolio/model/User.java:100-107 | when the encoder yields bcrypt hashes, a second run of the hook changes nothing |
| Users.UnsavedUsersAreEqual | backend/java/src/main/java/com/personal/portfolio/model/User.java:37-42 | two unsaved users (null ids) are equal whatever their fields; users with different ids are never equal |
| Users.ConstraintsReadAnnotatedFields | backend/java/src/main/java/com/personal/portfolio/model/User.java:45-90 | whether a user meets its Bean Validation constraints depends only on the six annotated fields (full name, address, password, phone number, picture URL, biography); a null password never does; without phone, picture and biography only the first three decide |
| Users.PhonePatternAlternatives | backend/java/src/main/java/com/personal/portfolio/model/User.java:66 | the phone pattern, applied with `matches`, accepts exactly 7 to 20 characters of digits, Java whitespace, `-`, `(` and `)`, optionally after one leading `+` |
| Users.OptionalFieldsRefuse | backend/java/src/main/java/com/personal/portfolio/model/User.java:65-90 | each optional constraint refuses on its own: a six-character number fails the pattern, a `+` followed by twenty digits matches the pattern but breaks `@Size(max = 20)`, a 501-character biography is too long, and a non-empty picture text the URL check rejects fails `@URL` |
| Users.PhoneExample | backend/java/src/main/java/com/personal/portfolio/model/User.java:65-67 | "+1 (555) 123-4567" passes the phone pattern and its size bound |
| Users.OneLetterNameRefused | backend/java/src/main/java/com/personal/portfolio/model/User.java:45-46 | a one-character full name never meets the constraints |
| BeanValidation.HasVisibleIffSome | backend/java/src/main/java/com/personal/portfolio/model/User.java:45 | the recursive visibility test holds exactly when some character lies above U+0020 |
| BeanValidation.NotBlankIsTrimNonEmpty | backend/java/src/main/java/com/personal/portfolio/model/User.java:45 | @NotBlank holds for a present text exactly when Java's trim() leaves something |
| BeanValidation.NotBlankIffVisibleCharacter | backend/java/src/main/java/com/personal/portfolio/model/User.java:45 | @NotBlank holds for a present text exactly when some character lies above U+0020, and never for an absent one |
| BeanValidation.BlanknessNotionsDiffer | backend/java/src/main/java/com/personal/portfolio/service/EmailService.java:58-60 | @NotBlank and isBlank disagree: a NUL character is blank to @NotBlank only, an em space to isBlank only |
| BeanValidation.EmptyPassesEmail | backend/java/src/main/java/com/personal/portfolio/dto/registration/RegisterUserRequest.java:11-12 | @Email accepts the empty and the absent value; any other text passes exactly when the address pattern accepts it |
| UserRepository.FindById | backend/java/src/main/java/com/personal/portfolio/repository/UserRepository.java:22 | the row with that identity, or none exactly when no row has it |
| UserRepository.FindByIdUnique | backend/java/src/main/java/com/personal/portfolio/model/User.java:40-43 | in a table with distinct identities, looking up a row's identity finds that row |
| UserRepository.FindByEmail | backend/java/src/main/java/com/personal/portfolio/repository/UserRepository.java:30 | a row with that e-mail, or none exactly when no row has it |
| UserRepository.FindByEmailUnique | backend/java/src/main/java/com/personal/portfolio/model/User.java:25-52 | with the unique e-mail constraint, looking up a row's e-mail finds that row |
| UserRepository.ExistsByEmailIffFound | backend/java/src/main/java/com/personal/portfolio/repository/UserRepository.java:30-38 | existsByEmail holds iff findByEmail finds a row |
| UserRepository.FindByRole | backend/java/src/main/java/com/personal/portfolio/repository/UserRepository.java:46 | exactly the rows with that role |
| UserRepository.FindInactiveUsers | backend/java/src/main/java/com/personal/portfolio/repository/UserRepository.java:63-64 | exactly the rows whose last login is before the threshold; rows with no login are never selected |
| UserRepository.FindLockedUsers | backend/java/src/main/java/com/personal/portfolio/repository/UserRepository.java:71-72 | exactly the locked rows |
| UserRepository.UpdateWhere | backend/java/src/main/java/com/personal/portfolio/repository/UserRepository.java:79-124 | a bulk update rewrites exactly the rows its condition selects and keeps the others and the row order |
| UserRepository.ToggleLockStatusById | backend/java/src/main/java/com/personal/portfolio/repository/UserRepository.java:79-82 | the row with that identity has its lock flag flipped and nothing else changed; every other row is untouched |
| UserRepository.ToggleTwiceRestores | backend/java/src/main/java/com/personal/portfolio/repository/UserRepository.java:79-82 | flipping the lock of the same identity twice restores the table |
| UserRepository.UpdateLastLogin | backend/java/src/main/java/com/personal/portfolio/repository/UserRepository.java:90-93 | only the row with that identity gets the new last login |
| UserRepository.UpdateUserRole | backend/java/src/main/java/com/personal/portfolio/repository/UserRepository.java:121-124 | only the row with that identity gets the new role |
| UserRepository.LockInactiveUsers | backend/java/src/main/java/com/personal/portfolio/repository/UserRepository.java:100-103 | exactly the rows findInactiveUsers selects become locked; the others are untouched |
| UserRepository.LockedAfterLockInactive | backend/java/src/main/java/com/personal/portfolio/repository/UserRepository.java:63-103 | after the bulk lock every inactive row is locked and every previously locked row stays locked |
| UserRepository.DeleteInactiveUsers | backend/java/src/main/java/com/personal/portfolio/repository/UserRepository.java:110-113 | keeps exactly the rows that are not inactive; kept and inactive rows add up to the table |
| UserRepository.NoInactiveAfterDelete | backend/java/src/main/java/com/personal/portfolio/repository/UserRepository.java:110-113 | no inactive row is left afterwards, and a user who never logged in always survives |
| UserRepository.Persist | backend/java/src/main/java/com/personal/portfolio/repository/UserRepository.java:22 | saving a new user fails with a constraint violation when the hashed entity breaks its constraints, checked before the unique columns; otherwise it fails with the e-mail's unique-constraint violation when the e-mail exists, and with the phone column's when only a present phone number is taken; it fails exactly in those cases; a saved row is appended with the next identity, the hashed password and both timestamps now, and is found by that identity |
| UserRepository.Merge | backend/java/src/main/java/com/personal/portfolio/repository/UserRepository.java:22 | saving a loaded user fails at commit when the hashed entity breaks its constraints, with the e-mail's unique-constraint violation when another row holds its e-mail, and with the phone column's when only its present phone number is another row's; it fails exactly in those cases; otherwise only that row changes, createdAt is kept, updatedAt is now and the password is hashed |
| UserRepository.ReplaceRowKeepsWellFormed | backend/java/src/main/java/com/personal/portfolio/model/User.java:25-68 | replacing a row by one with the same identity, a free e-mail and a free phone number keeps identities, e-mails and present phone numbers distinct |
| UserRepository.Delete | backend/java/src/main/java/com/personal/portfolio/repository/UserRepository.java:22 | removes exactly the row with that identity, keeping the others and the constraints |
| UserRepository.FilterKeepsDistinct | backend/java/src/main/java/com/personal/portfolio/model/User.java:25-68 | removing rows keeps identities, e-mail addresses and present phone numbers distinct |
| UserService.OwnEmailNotTaken | backend/java/src/main/java/com/personal/portfolio/service/UserService.java:78-83 | a stored user's own e-mail is never counted as taken by another row |
| UserService.OwnPhoneNotTaken | backend/java/src/main/java/com/personal/portfolio/service/UserService.java:78-83 | in a well-formed table a stored user's own phone number is never another row's |
| UserService.LoadUserByUsername | backend/java/src/main/java/com/personal/portfolio/service/UserService.java:37-44 | the user whose e-mail is the given name, or UsernameNotFoundException naming the e-mail exactly when there is none |
| UserService.SaveChanged | backend/java/src/main/java/com/personal/portfolio/service/UserService.java:113-129 | an unknown identity is UsernameNotFoundException with the identity; a changed row breaking the entity constraints fails at commit; on a well-formed table it succeeds exactly otherwise, saving the changed row with updatedAt now, found again by its identity and keeping the table well formed |
| UserService.ToggleLock | backend/java/src/main/java/com/personal/portfolio/service/UserService.java:51-56 | an unknown identity fails; on a well-formed table it succeeds exactly when the stored row, re-hashed, meets the entity constraints; then only the lock flag of that user is flipped and saved |
| UserService.ToggleLockTwice | backend/java/src/main/java/com/personal/portfolio/service/UserService.java:51-56 | toggling twice succeeds and gives the user back apart from the update time, when the stored password is already a hash and the row meets its constraints |
| UserService.GetUserById | backend/java/src/main/java/com/personal/portfolio/service/UserService.java:58-61 | the row with that identity, or none exactly when no row has it |
| UserService.CreateUser | backend/java/src/main/java/com/personal/portfolio/service/UserService.java:63-70 | a null password throws; an entity breaking its constraints after encoding is a constraint violation, checked before a taken e-mail and then a taken phone number, each a unique-constraint violation; it fails exactly in those cases; otherwise the saved user is disabled, has role USER when none was given, the encoded password, the next identity and the phone number, picture and biography sent, meets its constraints and is appended to the table |
| UserService.ExistsByEmailQuery | backend/java/src/main/java/com/personal/portfolio/service/UserService.java:72-75 | true iff a user with that e-mail exists |
| UserService.UpdateUser | backend/java/src/main/java/com/personal/portfolio/service/UserService.java:77-92 | an unknown identity fails; a candidate breaking the entity constraints fails at commit; an e-mail held by another user is refused, and so is a stored phone number another row holds, which a well-formed table rules out; it fails exactly in those cases; otherwise name and e-mail are copied, the password is re-encoded only when a new one is given, and phone number, picture and biography are kept |
| UserService.DeleteUser | backend/java/src/main/java/com/personal/portfolio/service/UserService.java:94-102 | an unknown identity fails with UsernameNotFoundException; otherwise exactly that user is removed |
| UserService.ResetPassword | backend/java/src/main/java/com/personal/portfolio/service/UserService.java:104-111 | an unknown e-mail fails; a null new password throws; on a well-formed table it succeeds exactly when the user with the encoded password meets its constraints, and then that user gets the encoded password and nothing else changes but updatedAt |
| UserService.ResetPasswordTakesEffect | backend/java/src/main/java/com/personal/portfolio/service/UserService.java:104-111 | a reset whose result meets the constraints succeeds, and loading the user by that e-mail then finds the new encoded password |
| UserService.ChangeUserRole | backend/java/src/main/java/com/personal/portfolio/service/UserService.java:113-120 | an unknown identity fails; on a well-formed table it succeeds exactly when the stored row meets its constraints, and then only the role and updatedAt of that user change |
| UserService.ActivateUserAccount | backend/java/src/main/java/com/personal/portfolio/service/UserService.java:122-129 | an unknown identity fails; on a well-formed table it succeeds exactly when the stored row meets its constraints, and then that user is enabled and nothing else changes but updatedAt |
| UserController.GetAllUsers | backend/java/src/main/java/com/personal/portfolio/controller/UserController.java:39-54 | 204 when there are no users, 200 with every user otherwise, 500 when reading fails |
| UserController.GetUserById | backend/java/src/main/java/com/personal/portfolio/controller/UserController.java:56-63 | 200 with the user iff a user has that identity, 404 otherwise |
| UserController.CreateUser | backend/java/src/main/java/com/personal/portfolio/controller/UserController.java:71-91 | as written every create request is refused 400 by validation with the table untouched: the password is never read from JSON, so its @NotBlank constraint always fails |
| UserController.Received | backend/java/src/main/java/com/personal/portfolio/model/User.java:55-83 | a bound request body has no password and no last login, whatever was sent; every other field is as sent |
| UserController.CreateHandler | backend/java/src/main/java/com/personal/portfolio/controller/UserController.java:74-91 | past validation: a taken e-mail is 409 with the table untouched; a null password, an entity breaking its constraints or a phone number another user has is 500 with the table untouched; otherwise 201 with the created, disabled user carrying the phone number sent, the location /api/users/ followed by its identity, and the row appended |
| UserController.CreateUserIntended | backend/java/src/main/java/com/personal/portfolio/controller/UserController.java:71-91 | corrected, with the password readable: a body breaking any of the entity's constraints (name, address, password, phone pattern and size, picture URL and size, biography size) is 400 with the table untouched; a valid body has a password, a taken e-mail is 409, a taken phone number 500 with the table untouched, and otherwise a new entity meeting its constraints is 201 with the row appended |
| UserController.CreatedUserIsFound | backend/java/src/main/java/com/personal/portfolio/controller/UserController.java:83-85 | with the corrected binding, a valid new user with a free address and phone number is created with 201 and its location leads back to that user |
| UserController.FailureStatus | backend/java/src/main/java/com/personal/portfolio/controller/UserController.java:112-117 | UsernameNotFoundException maps to 404 and every other exception to 500 |
| UserController.UpdateUser | backend/java/src/main/java/com/personal/portfolio/controller/UserController.java:100-119 | as written a missing body is 400 and every present body is 400 by validation, since the password never binds; nothing changes |
| UserController.UpdateHandler | backend/java/src/main/java/com/personal/portfolio/controller/UserController.java:104-119 | past validation: an unknown identity is 404; a candidate breaking the constraints, an e-mail held by another user or a stored phone number another row holds is 500 with nothing changed; otherwise 200 with the updated user, its new e-mail and its stored phone number |
| UserController.UpdateUserIntended | backend/java/src/main/java/com/personal/portfolio/controller/UserController.java:100-119 | corrected: a missing body is 400, a body breaking any of the entity's constraints (phone number, picture URL and biography included) 400, otherwise the handler's answer for that identity |
| UserController.ValidUpdateSucceeds | backend/java/src/main/java/com/personal/portfolio/controller/UserController.java:100-119 | corrected: a valid update that keeps the user's own e-mail, of a user whose stored phone number, picture and biography pass their constraints, answers 200 with the new name and stores that user |
| UserController.ToggleLockUser | backend/java/src/main/java/com/personal/portfolio/controller/UserController.java:127-146 | a missing identity is 400; an unknown one 404; on a well-formed table 200 exactly when the stored row meets its constraints, with the lock flipped, and otherwise 500 with nothing changed |
| UserController.DeleteUser | backend/java/src/main/java/com/personal/portfolio/controller/UserController.java:154-173 | a missing identity is 400; an unknown one 404; otherwise 204 and the user is gone |
| UserController.DeleteThenGetIsNotFound | backend/java/src/main/java/com/personal/portfolio/controller/UserController.java:154-173 | after a delete, fetching or deleting the same identity answers 404 |
| LegacyUsers.Authority | backend/java/src/main/java/com/portfolio/portfolio/model/User.java:82-85 | the single authority is the role's constant name with no ROLE_ prefix; a null role throws NullPointerException |
| LegacyUsers.NewUserIsActive | backend/java/src/main/java/com/portfolio/portfolio/model/User.java:38-80 | a new legacy user has role USER and passes every account-status check, which read the stored flags only |
| LegacyUsers.EqualsContract | backend/java/src/main/java/com/portfolio/portfolio/model/User.java:87-97 | equals is symmetric and transitive, hashCode agrees with it, an entity without an id equals only itself |
| LegacyUserService.FindById | backend/java/src/main/java/com/portfolio/portfolio/service/UserService.java:40-41 | the row with that identity, or none exactly when no row has it |
| LegacyUserService.FindByEmail | backend/java/src/main/java/com/portfolio/portfolio/repository/UserRepository.java:17 | a row with that e-mail, or none exactly when no row has it |
| LegacyUserService.LoadUserByUsername | backend/java/src/main/java/com/portfolio/portfolio/service/UserService.java:28-32 | the user with that e-mail, or UsernameNotFoundException whose message says id followed by the e-mail |
| LegacyUserService.ToggleLock | backend/java/src/main/java/com/portfolio/portfolio/service/UserService.java:39-46 | an unknown identity fails; otherwise the stored row's lock is flipped by the bulk update and the caller gets the loaded entity with its lock flipped too |
| LegacyUserService.ToggleLockReturnsStoredRow | backend/java/src/main/java/com/portfolio/portfolio/service/UserService.java:39-46 | with distinct identities the entity handed back is exactly the row now stored |
| LegacyUserService.ToggleLockTwice | backend/java/src/main/java/com/portfolio/portfolio/repository/UserRepository.java:21-24 | toggling twice restores the table |
| LegacyUserService.GetUserById | backend/java/src/main/java/com/portfolio/portfolio/service/UserService.java:48-50 | the row with that identity iff one exists |
| LegacyUserService.CreateUser | backend/java/src/main/java/com/portfolio/portfolio/service/UserService.java:52-56 | a null password throws; a taken e-mail is a constraint violation; otherwise the saved user has the encoded password, role USER when none was given, a new identity and both timestamps |
| LegacyUserService.CreatedUserIsFound | backend/java/src/main/java/com/portfolio/portfolio/service/UserService.java:52-56 | a created user keeps identities distinct and is found under its identity and its e-mail |
| LegacyUserService.UpdateUser | backend/java/src/main/java/com/portfolio/portfolio/service/UserService.java:58-68 | an unknown identity fails; an e-mail held by another row is a constraint violation; otherwise name and e-mail are copied, a given password is encoded, updatedAt is now and createdAt kept |
| LegacyUserService.DeleteUser | backend/java/src/main/java/com/portfolio/portfolio/service/UserService.java:70-75 | an unknown identity fails with UsernameNotFoundException; otherwise exactly its row goes |
| LegacyUserService.DeleteTwiceFails | backend/java/src/main/java/com/portfolio/portfolio/service/UserService.java:70-75 | after a delete the identity is unknown, so a second delete fails |
| JwtKeys.NewKeyRecord | backend/java/src/main/java/com/personal/portfolio/model/JwtKeys.java:30-45 | a new key record carries the random key id, no secret yet, is created now and expires thirty days later |
| JwtKeys.ExpiryIsPermanent | backend/java/src/main/java/com/personal/portfolio/model/JwtKeys.java:52-63 | a key is unexpired up to and including its expiration instant, expired right after, and expired for good; validity only gets lost over time |
| JwtKeys.RenewKey | backend/java/src/main/java/com/personal/portfolio/model/JwtKeys.java:70-72 | only the expiration changes, to the given number of days after now; a non-negative renewal is unexpired and valid iff a secret is present, a negative one is expired |
| JwtKeys.RemainingValidity | backend/java/src/main/java/com/personal/portfolio/model/JwtKeys.java:79-81 | the whole days from now to the expiration, truncated toward zero in both directions |
| JwtKeys.RemainingValidityAfterExpiry | backend/java/src/main/java/com/personal/portfolio/model/JwtKeys.java:52-81 | a negative remaining validity means expired, but during the first expired day it still reads zero; a seven-day renewal reads seven |
| JwtKeys.ToString | backend/java/src/main/java/com/personal/portfolio/model/JwtKeys.java:88-97 | the printed form starts with JwtKeys{id= |
| JwtKeys.ToStringHidesSecret | backend/java/src/main/java/com/personal/portfolio/model/JwtKeys.java:88-97 | keys differing only in their secret print identically and are equal, so the printed form reveals nothing about the secret |
| JwtKeysRepository.FindNewest | backend/java/src/main/java/com/personal/portfolio/repository/JwtKeysRepository.java:21 | none iff the store is empty; otherwise a stored key whose creation date is the greatest |
| JwtKeysRepository.FindExpiredKeys | backend/java/src/main/java/com/personal/portfolio/repository/JwtKeysRepository.java:23-24 | exactly the keys expiring strictly before the threshold |
| JwtKeysRepository.FindLatestValidKeys | backend/java/src/main/java/com/personal/portfolio/repository/JwtKeysRepository.java:29-30 | exactly the keys expiring after now, each once, newest first |
| JwtKeysRepository.ValidQueriesAgree | backend/java/src/main/java/com/personal/portfolio/repository/JwtKeysRepository.java:23-30 | existsValidKey holds iff findLatestValidKeys is non-empty; a key expiring exactly now is neither expired nor valid |
| JwtKeysRepository.DeleteExpiredKeys | backend/java/src/main/java/com/personal/portfolio/repository/JwtKeysRepository.java:32-35 | removes exactly the keys findExpiredKeys selects |
| JwtKeysRepository.DeleteByKeyId | backend/java/src/main/java/com/personal/portfolio/repository/JwtKeysRepository.java:37-40 | removes exactly the keys with that key id |
| JwtKeysRepository.DeleteAllInBatch | backend/java/src/main/java/com/personal/portfolio/repository/JwtKeysRepository.java:19 | removes exactly the listed keys |
| JwtKeysRepository.BatchDeleteOfExpiredKeys | backend/java/src/main/java/com/personal/portfolio/repository/JwtKeysRepository.java:23-35 | deleting the keys findExpiredKeys returned is the bulk delete |
| JwtKeysRepository.Save | backend/java/src/main/java/com/personal/portfolio/model/JwtKeys.java:26-32 | a new key gets the next identity and is appended; a reused key id violates the unique constraint |
| Jwt.DecodeKey | backend/java/src/main/java/com/personal/portfolio/service/JwtService.java:169-171 | a null string is a null-pointer failure, text that is not standard Base64 an illegal argument, a key under 256 bits a weak key, and any other decoding is the key |
| Jwt.DecodeKeyInvertsEncoding | backend/java/src/main/java/com/personal/portfolio/service/JwtService.java:170 | decoding returns exactly the bytes a key was stored from |
| Jwt.Sign | backend/java/src/main/java/com/personal/portfolio/service/JwtService.java:128 | HS512 signing succeeds exactly for keys of at least 512 bits and yields a non-blank token of those claims under that key; otherwise a weak-key failure |
| Jwt.Parse | backend/java/src/main/java/com/personal/portfolio/service/JwtService.java:142-146 | parsing succeeds exactly for a token signed with the same key whose expiration is not past, returning its claims; an expired one fails as expired, every failure is a JJWT exception |
| Jwt.ParseSigned | backend/java/src/main/java/com/personal/portfolio/service/JwtService.java:121-146 | parsing returns what was signed, under the same key, until the expiration |
| JwtService.CleanupExpiredKeys | backend/java/src/main/java/com/personal/portfolio/service/JwtService.java:66-72 | the bulk delete of expired keys; no key left is expired |
| JwtService.RotateKey | backend/java/src/main/java/com/personal/portfolio/service/JwtService.java:50-88 | with no key surviving the cleanup, a fresh key with the next identity becomes the only row and the cached key; otherwise the newest surviving key's decoding is cached, or its decoding failure is reported with the cleanup kept and the cache untouched |
| JwtService.RotationCreatesIffNoKeyLeft | backend/java/src/main/java/com/personal/portfolio/service/JwtService.java:54-60 | a key is added exactly when the cleanup leaves none, and after rotation no stored key is expired |
| JwtService.GetSignInKey | backend/java/src/main/java/com/personal/portfolio/service/JwtService.java:155-167 | the cached key when there is one; otherwise the newest stored key's decoding, cached on success; with an empty table an illegal-state failure; the table is never changed |
| JwtService.RotationCacheAgreesWithStore | backend/java/src/main/java/com/personal/portfolio/service/JwtService.java:155-167 | after a successful rotation the table is not empty and the signing key is the decoding of its newest key, the fresh key when one was created |
| JwtService.GenerateToken | backend/java/src/main/java/com/personal/portfolio/service/JwtService.java:111-130 | a signing-key failure propagates; success means a token signed with the signing key naming the user as subject, the authorities as roles and the fixed issuer and audience; it succeeds iff that key is long enough for HS512 |
| JwtService.ParseClaims | backend/java/src/main/java/com/personal/portfolio/service/JwtService.java:140-153 | succeeds exactly when a signing key is at hand and the token parses under it, returning its claims; an expiry failure stays one, every other failure is no longer a JJWT exception |
| JwtService.Rethrown | backend/java/src/main/java/com/personal/portfolio/service/JwtService.java:147-152 | an expired-token exception is rethrown as is, another JJWT exception becomes a plain runtime exception, anything else passes |
| JwtService.Caught | backend/java/src/main/java/com/personal/portfolio/service/JwtService.java:102-108 | JJWT exceptions mean false, anything else escapes |
| JwtService.IsTokenValid | backend/java/src/main/java/com/personal/portfolio/service/JwtService.java:98-109 | blank is false without touching the state; true only for a signed token naming the user that has not expired; whatever escapes is no JJWT exception |
| JwtService.GeneratedTokenIsValid | backend/java/src/main/java/com/personal/portfolio/service/JwtService.java:98-130 | a token generated for a user is valid for that user up to its expiration |
| JwtService.MalformedTokenEscapes | backend/java/src/main/java/com/personal/portfolio/service/JwtService.java:140-153 | garbage text, or a token signed with another key, makes validation throw a runtime exception rather than answer false |
| JwtService.ParseClaimsIntended | backend/java/src/main/java/com/personal/portfolio/service/JwtService.java:140-153 | with the JJWT exception rethrown unchanged, the result is the signing-key failure or exactly the parse under that key |
| JwtService.IsTokenValidIntended | backend/java/src/main/java/com/personal/portfolio/service/JwtService.java:98-109 | corrected: a blank token is false without touching the state |
| JwtService.IntendedValidationAnswers | backend/java/src/main/java/com/personal/portfolio/service/JwtService.java:98-109 | once a signing key exists, the corrected validation always answers, true exactly for a non-blank unexpired token signed with that key for that user, and agrees with the written version wherever that answers |
| LegacyJwtService.IsExpired | backend/java/src/main/java/com/portfolio/portfolio/model/JwtKeys.java:41-45 | an unset expiration throws an illegal-state exception; otherwise expired iff the expiration lies strictly before now |
| LegacyJwtService.FindTop | backend/java/src/main/java/com/portfolio/portfolio/repository/JwtKeysRepository.java:18 | none iff the table is empty; otherwise a stored key with the greatest creation date |
| LegacyJwtService.Cleanup | backend/java/src/main/java/com/portfolio/portfolio/service/JwtService.java:43-48 | keeps exactly the keys not selected by findExpiredKeys, which never selects a key whose expiration is unset |
| LegacyJwtService.RotateKey | backend/java/src/main/java/com/portfolio/portfolio/service/JwtService.java:42-63 | with no key surviving the cleanup, a fresh key becomes the only row; otherwise the table is the cleaned one and an exception is reported exactly when the newest key's expiration is unset |
| LegacyJwtService.SaveNew | backend/java/src/main/java/com/portfolio/portfolio/model/JwtKeys.java:27-28 | a reused key id violates the unique column and changes nothing; otherwise the key is appended with the next identity |
| LegacyJwtService.RotationSavesIffNoKeyLeft | backend/java/src/main/java/com/portfolio/portfolio/service/JwtService.java:50-61 | a key is saved exactly when no key survives the cleanup |
| LegacyJwtService.GetSignInKey | backend/java/src/main/java/com/portfolio/portfolio/service/JwtService.java:157-161 | an empty table is an illegal-state failure; otherwise the decoding of the newest key, read anew on every call |
| LegacyJwtService.RotationThenSignInKey | backend/java/src/main/java/com/portfolio/portfolio/service/JwtService.java:42-63 | after a rotation that saved a key, signing uses exactly that key |
| LegacyJwtService.ParseClaims | backend/java/src/main/java/com/portfolio/portfolio/service/JwtService.java:144-154 | the signing-key failure, or exactly the parse under that key, JJWT exceptions rethrown unchanged |
| LegacyJwtService.IsTokenExpired | backend/java/src/main/java/com/portfolio/portfolio/service/JwtService.java:97-104 | with a usable key it answers or fails with a JJWT exception; for a token signed with that key it answers whether the expiration lies before now |
| LegacyJwtService.IsTokenValid | backend/java/src/main/java/com/portfolio/portfolio/service/JwtService.java:79-95 | a null or blank token is false; when the key cannot be had the result is a failure or, for a JJWT failure, false |
| LegacyJwtService.ValidationAnswers | backend/java/src/main/java/com/portfolio/portfolio/service/JwtService.java:79-104 | with a usable key validation always answers, true exactly for a non-blank unexpired token signed with that key for that user |
| LegacyJwtService.GenerateToken | backend/java/src/main/java/com/portfolio/portfolio/service/JwtService.java:107-131 | a missing key propagates, a JJWT failure (a weak key) becomes a runtime exception; success is a token under the newest key naming the user and roles with the fixed issuer and audience |
| LegacyJwtService.GeneratedTokenIsValid | backend/java/src/main/java/com/portfolio/portfolio/service/JwtService.java:79-131 | a generated token validates for its user until its expiration while the key table is unchanged |
| AuthenticationService.Signup | backend/java/src/main/java/com/personal/portfolio/service/AuthenticationService.java:43-58 | a taken address is refused with a duplicate-key failure before anything is encoded; a null password fails in the encoder; otherwise it succeeds exactly when the new entity meets its constraints, failing at insert with a constraint violation when it does not; a success appends one user with the next identity, the request's name and address, role USER, a last login of now, enabled and unlocked, meeting its constraints and keeping the table well formed |
| AuthenticationService.SignupThenLookup | backend/java/src/main/java/com/personal/portfolio/service/AuthenticationService.java:43-58 | a registered user whose entity meets its constraints is found by address at once, and registering the same address again is refused |
| AuthenticationService.OneLetterNameFailsAtInsert | backend/java/src/main/java/com/personal/portfolio/model/User.java:45-46 | a one-character full name for a new address fails at insert with a constraint violation |
| AuthenticationService.Authenticate | backend/java/src/main/java/com/personal/portfolio/service/AuthenticationService.java:67-83 | succeeds iff the manager accepts; bad credentials and unknown users are rethrown, any other authentication failure becomes bad credentials, so disabled and locked never escape; non-authentication failures pass unchanged |
| AuthenticationService.AuthenticateIntended | backend/java/src/main/java/com/personal/portfolio/service/AuthenticationService.java:67-83 | the corrected translation also rethrows disabled and locked accounts, and a disabled failure comes out exactly when one went in |
| AuthenticationController.LoginFailure | backend/java/src/main/java/com/personal/portfolio/controller/AuthenticationController.java:69-81 | bad credentials are 401, disabled and locked accounts 403, everything else 500; the error code is ACCOUNT_DISABLED exactly for a disabled account |
| AuthenticationController.Login | backend/java/src/main/java/com/personal/portfolio/controller/AuthenticationController.java:56-81 | an unknown address is a 500 and a locked account a 403 before authenticating; a 401 only follows an authentication failure other than an unknown user; a 200 carries a token signed for the user's authorities, its expiration in milliseconds and the user's role |
| AuthenticationController.IssueToken | backend/java/src/main/java/com/personal/portfolio/controller/AuthenticationController.java:65-80 | after authentication the reply is 200 or 500: a failure to sign or to read back the token is a server error, never 401 or 403; a 200 carries a token signed for the user's authorities, its expiration in milliseconds and the user's role |
| AuthenticationController.LockedAccountSkipsAuthentication | backend/java/src/main/java/com/personal/portfolio/controller/AuthenticationController.java:60-63 | for a locked account the reply does not depend on the manager's verdict and is ACCOUNT_LOCKED |
| AuthenticationController.LoginTokenIsValid | backend/java/src/main/java/com/personal/portfolio/controller/AuthenticationController.java:64-68 | the token of a successful login is valid for that user up to the reported expiration |
| AuthenticationController.LoginNeverReportsDisabled | backend/java/src/main/java/com/personal/portfolio/service/AuthenticationService.java:79-81 | the endpoint never answers ACCOUNT_DISABLED; a manager refusing a disabled account yields 401 INVALID_CREDENTIALS |
| AuthenticationController.LoginIntended | backend/java/src/main/java/com/personal/portfolio/controller/AuthenticationController.java:72-77 | with the corrected translation the status stays one of 200, 401, 403 and 500 |
| AuthenticationController.DisabledAccountForbidden | backend/java/src/main/java/com/personal/portfolio/controller/AuthenticationController.java:72-74 | with the corrected translation a disabled account gets 403 ACCOUNT_DISABLED, and every verdict other than disabled or locked is answered as before |
| AuthenticationController.SignupFailure | backend/java/src/main/java/com/personal/portfolio/controller/AuthenticationController.java:99-111 | data-integrity failures are 409, other runtime failures 400, anything else 500 |
| AuthenticationController.Signup | backend/java/src/main/java/com/personal/portfolio/controller/AuthenticationController.java:92-112 | a body failing the request's checks (name, address and password non-blank, address well formed) is 400 with nothing stored; a taken address is 409 EMAIL_ALREADY_TAKEN with the table unchanged; a new entity breaking its constraints is 400 INVALID_INPUT with the table unchanged; otherwise 201 with the new identity and role USER and one more row |
| AuthenticationController.OneLetterNameIsInvalidInput | backend/java/src/main/java/com/personal/portfolio/controller/AuthenticationController.java:92-111 | a one-character full name with a valid address and password passes the request checks and is answered 400 INVALID_INPUT with nothing stored |
| EmailService.LocalPartLength | backend/java/src/main/java/com/personal/portfolio/service/EmailService.java:40 | the longest prefix of local-part characters: every character before it is one, the one at it is not |
| EmailService.AddressPatternIsRegex | backend/java/src/main/java/com/personal/portfolio/service/EmailService.java:40 | the search-free decision agrees with the regular expression: some split into a non-empty local part, an at sign and a non-empty rest without line terminators |
| EmailService.LocalPartLengthIs | backend/java/src/main/java/com/personal/portfolio/service/EmailService.java:40 | the local part ends exactly where the first non-local character stands |
| EmailService.ValidEmailExample | backend/java/src/main/java/com/personal/portfolio/service/EmailService.java:226-228 | valid@example.com is accepted |
| EmailService.InvalidEmailExample | backend/java/src/main/java/com/personal/portfolio/service/EmailService.java:226-228 | bad-email and null are rejected |
| EmailService.EscapeChar | backend/java/src/main/java/com/personal/portfolio/service/EmailService.java:64 | a character needing no escape stays itself; no escape produces an angle bracket or a double quote, and an apostrophe only from an apostrophe |
| EmailService.EscapeHtml4 | backend/java/src/main/java/com/personal/portfolio/service/EmailService.java:64 | text needing no escape is returned unchanged; the result never holds an angle bracket or a double quote, and holds an apostrophe only if the input did |
| EmailService.AsciiNeedsNoEscape | backend/java/src/main/java/com/personal/portfolio/service/EmailService.java:64 | with the HTML 4.0 entity table, ASCII other than ampersand, angle brackets and double quote is left alone |
| EmailService.Stripped10 | backend/java/src/main/java/com/personal/portfolio/service/EmailService.java:63-64 | the result keeps only characters of the input outside the ten deleted ones and neither starts nor ends with a trimmable character |
| EmailService.Sanitize | backend/java/src/main/java/com/personal/portfolio/service/EmailService.java:58-65 | rejected with an illegal-argument failure exactly for null or blank input; an accepted result holds no angle bracket, double quote or apostrophe |
| EmailService.SanitizeFixesPlainText | backend/java/src/main/java/com/personal/portfolio/service/EmailService.java:58-65 | ASCII text without deleted characters and without trimmable ends passes unchanged |
| EmailService.SanitizeAsciiIdempotent | backend/java/src/main/java/com/personal/portfolio/service/EmailService.java:58-65 | on ASCII input sanitising is deleting then trimming, and a non-empty result passes a second time unchanged |
| EmailService.TrimOneSided | backend/java/src/main/java/com/personal/portfolio/service/EmailService.java:64 | trimming leaves text with non-trimmable ends alone |
| EmailService.SanitizeOnlyStrippedCharacters | backend/java/src/main/java/com/personal/portfolio/service/EmailService.java:59-64 | text of deleted characters only is not blank yet sanitises to the empty string, while empty text is rejected |
| EmailService.ValidateEmail | backend/java/src/main/java/com/personal/portfolio/service/EmailService.java:246-251 | no failure exactly for a valid address, otherwise an illegal-argument failure |
| EmailService.Dispatch | backend/java/src/main/java/com/personal/portfolio/service/EmailService.java:88-116 | a sanitising failure propagates with nothing recorded; otherwise the message id is recorded, as SENT with the mail in the outbox when the server accepts, or as FAILED plus the reason with an illegal-state failure and nothing sent; other ids keep their status |
| EmailService.SendEmail | backend/java/src/main/java/com/personal/portfolio/service/EmailService.java:79-117 | an invalid address fails first; it succeeds exactly for a valid address, two non-blank texts and an accepting server, and then exactly one mail is sent; on failure the outbox is unchanged; recorded statuses stay SENT or FAILED |
| EmailService.SendEmailWithAttachment | backend/java/src/main/java/com/personal/portfolio/service/EmailService.java:265-305 | without a refused attachment it behaves as sendEmail; a refused attachment is a send failure naming it |
| EmailService.RejectedAttachmentIsRecorded | backend/java/src/main/java/com/personal/portfolio/service/EmailService.java:288-303 | a refused attachment is recorded as FAILED naming it, with an illegal-state failure and nothing sent |
| EmailService.SendPasswordResetEmail | backend/java/src/main/java/com/personal/portfolio/service/EmailService.java:155-159 | an invalid address fails before anything happens; otherwise the reset mail with the link carrying the token is sent |
| EmailService.ResetMailFailsOnlyInTransport | backend/java/src/main/java/com/personal/portfolio/service/EmailService.java:155-159 | for a valid address the reset mail fails exactly when the server refuses it, and the outcome is recorded under its id |
| EmailService.ResendConfirmationEmail | backend/java/src/main/java/com/personal/portfolio/service/EmailService.java:166-171 | an invalid address fails before anything happens; otherwise the confirmation mail with the link carrying the address is sent |
| EmailService.ConfirmationMailFailsOnlyInTransport | backend/java/src/main/java/com/personal/portfolio/service/EmailService.java:166-171 | for a valid address the confirmation mail fails exactly when the server refuses it, and the outcome is recorded under its id |
| EmailService.ValidRecipients | backend/java/src/main/java/com/personal/portfolio/service/EmailService.java:187-189 | exactly the recipients matching the pattern, never more than given |
| EmailService.Accepted | backend/java/src/main/java/com/personal/portfolio/service/EmailService.java:196-203 | never more accepted attempts than attempts |
| EmailService.SendToEach | backend/java/src/main/java/com/personal/portfolio/service/EmailService.java:196-204 | one attempt per address, successes plus failures equal the attempts, successes are the accepted ones when both texts pass, and the outbox grows by the successes |
| EmailService.SendBulkEmail | backend/java/src/main/java/com/personal/portfolio/service/EmailService.java:180-208 | a blank subject or body aborts with an illegal-argument failure; otherwise exactly the valid recipients are attempted, successes plus failures equal their number, and the outbox grows by the successes |
| EmailService.GetEmailStatus | backend/java/src/main/java/com/personal/portfolio/service/EmailService.java:216-218 | the recorded status, or UNKNOWN exactly for an id never used; every answer is SENT, UNKNOWN or starts with FAILED |
| EmailService.GeneratePasswordResetToken | backend/java/src/main/java/com/personal/portfolio/service/EmailService.java:235-239 | 44 URL-safe characters ending in one padding sign, without plus or slash, decoding back to the 32 random bytes |
| EmailService.TokenSurvivesSanitizing | backend/java/src/main/java/com/personal/portfolio/service/EmailService.java:58-65 | a reset token passes sanitising unchanged |
| EmailService.ScheduleEmail | backend/java/src/main/java/com/personal/portfolio/service/EmailService.java:330-342 | the delay is never negative and the send happens at the send time or now, whichever is later; a warning is logged exactly when the send time is not in the future |
| EmailService.Violation | backend/java/src/main/java/com/personal/portfolio/service/EmailService.java:36 | a parameter-constraint failure is a ConstraintViolationException: a runtime failure, not a data-integrity one |
| EmailService.ProxiedSendEmail | backend/java/src/main/java/com/personal/portfolio/service/EmailService.java:79-86 | through the validating proxy, arguments breaking their constraints fail with nothing sent; otherwise the call is sendEmail; the mail goes out exactly when the arguments pass, the address is valid, both texts sanitise and the server accepts |
| EmailService.SanitizeRefusalAfterProxy | backend/java/src/main/java/com/personal/portfolio/service/EmailService.java:58-65 | a text passing @NotBlank is still refused by sanitizeInput exactly when it is blank by Character.isWhitespace yet has a character above U+0020; an em space is one |
| EmailService.ProxiedSendEmailWithAttachment | backend/java/src/main/java/com/personal/portfolio/service/EmailService.java:265-272 | arguments breaking their constraints fail at the proxy with nothing sent; otherwise the call is sendEmailWithAttachment; a success means no refused attachment, no transport failure and one more mail |
| EmailService.ValidEmailNotBlank | backend/java/src/main/java/com/personal/portfolio/service/EmailService.java:226-228 | an address the service's own pattern accepts passes @NotBlank |
| EmailService.ProxiedSendPasswordResetEmail | backend/java/src/main/java/com/personal/portfolio/service/EmailService.java:155 | a blank or malformed recipient or a blank token fails at the proxy with nothing sent; otherwise the call is sendPasswordResetEmail |
| EmailService.ProxiedResendConfirmationEmail | backend/java/src/main/java/com/personal/portfolio/service/EmailService.java:166 | a blank or malformed recipient fails at the proxy with nothing sent; otherwise the call is resendConfirmationEmail |
| EmailService.ResetTokenNotBlank | backend/java/src/main/java/com/personal/portfolio/service/EmailService.java:235-239 | a generated reset token always passes @NotBlank |
| EmailService.ProxiedSendBulkEmail | backend/java/src/main/java/com/personal/portfolio/service/EmailService.java:180-208 | a missing or empty list, an element that is not a non-blank well-formed address, or a blank text fails at the proxy; otherwise a text that does not sanitise aborts with an illegal-argument failure, and else exactly the valid recipients are attempted, successes plus failures equal their number, and the outbox grows by exactly the accepted mails, one per accepted valid recipient in order, carrying the twice-sanitised texts (unchanged when a second sanitising fails) |
| EmailService.ProxiedGetEmailStatus | backend/java/src/main/java/com/personal/portfolio/service/EmailService.java:216-218 | a blank id fails at the proxy; otherwise the recorded status |
| EmailService.ProxiedScheduleEmail | backend/java/src/main/java/com/personal/portfolio/service/EmailService.java:319-342 | succeeds exactly when the message arguments pass and the send time is present and strictly after the moment of the call; it then schedules as the service does |
| EmailService.ProxiedScheduleNeverWarns | backend/java/src/main/java/com/personal/portfolio/service/EmailService.java:327-336 | behind the proxy the past-time warning is unreachable: every accepted schedule has a positive delay ending at the send time |
| EmailController.HttpStatus | backend/java/src/main/java/com/personal/portfolio/controller/EmailController.java:26-27 | an answer carries its status, an escaping exception becomes a 500 |
| EmailController.Send | backend/java/src/main/java/com/personal/portfolio/controller/EmailController.java:52-78 | an invalid address is a 400 before anything is sent; arguments the validating proxy refuses are a 500 with the fixed text; 200 exactly when validation, sanitising and the server all pass, with one more mail; any other outcome is a 500 with the outbox unchanged |
| EmailController.SendSucceedsOnWellFormedInput | backend/java/src/main/java/com/personal/portfolio/controller/EmailController.java:52-78 | for a well-formed address, well-formed copies, and texts that are not blank by isBlank and hold a character above U+0020, the endpoint answers 200 exactly when the server accepts |
| EmailController.ForgotPassword | backend/java/src/main/java/com/personal/portfolio/controller/EmailController.java:87-104 | an unregistered address is a 404 with nothing sent; a registered address the proxy refuses escapes as a constraint violation; otherwise a fresh token is mailed, 200 on success and the service's failure escaping uncaught |
| EmailController.ForgotPasswordInvalidRegisteredAddress | backend/java/src/main/java/com/personal/portfolio/controller/EmailController.java:93-100 | a registered address that is not well formed ends in a server error with nothing sent: the proxy's constraint violation, or the service's illegal-argument failure when only the service's own pattern refuses it |
| EmailController.ResendConfirmation | backend/java/src/main/java/com/personal/portfolio/controller/EmailController.java:113-128 | an unregistered address is a 404 with nothing sent; a registered address the proxy refuses escapes as a constraint violation; otherwise the confirmation mail goes out, 200 on success and the service's failure escaping uncaught |
| EmailController.RegisteredAddressAnswers | backend/java/src/main/java/com/personal/portfolio/controller/EmailController.java:87-128 | for a registered well-formed address both endpoints answer 200 exactly when the server accepts the mail and 500 otherwise, recording the outcome |
| EmailController.SendBulk | backend/java/src/main/java/com/personal/portfolio/controller/EmailController.java:139-154 | an empty list is a 400 with nothing sent; arguments the proxy refuses escape as a constraint violation with nothing sent; with valid arguments and texts that sanitise the answer is 200 however many sends failed, and the outbox grows by exactly the mails the server accepted, one per accepted valid recipient in order, with the twice-sanitised texts; otherwise an illegal-argument failure escapes with nothing sent |
| EmailController.StatusAsWritten | backend/java/src/main/java/com/personal/portfolio/controller/EmailController.java:162-173 | as written a blank id escapes as a constraint violation and every other id is answered 200 with the service's status |
| EmailController.StatusNeverNotFound | backend/java/src/main/java/com/personal/portfolio/controller/EmailController.java:166-169 | the answer is 200 or 500, never 404; an unknown non-blank id is answered 200 UNKNOWN |
| EmailController.Status | backend/java/src/main/java/com/personal/portfolio/controller/EmailController.java:167-172 | as intended, 404 exactly for a non-blank id the service has no record of; a blank id as written; otherwise 200 with its status |
| EmailController.LastNamed | backend/java/src/main/java/com/personal/portfolio/controller/EmailController.java:209-211 | the last upload before the bound carrying the name, or -1 when none does |
| EmailController.AttachmentMap | backend/java/src/main/java/com/personal/portfolio/controller/EmailController.java:207-217 | names exactly the uploaded file names, each mapped to the bytes of the last upload with that name |
| EmailController.LastNamedPrefix | backend/java/src/main/java/com/personal/portfolio/controller/EmailController.java:209-211 | the last occurrence before a bound does not depend on uploads after it |
| EmailController.SendWithAttachment | backend/java/src/main/java/com/personal/portfolio/controller/EmailController.java:188-228 | an invalid address is a 400, then an unreadable upload a 400 before anything is sent, then arguments the proxy refuses a 500; a refused attachment never yields 200; otherwise 200 exactly when the service succeeds and 500 when it fails |
| EmailController.Schedule | backend/java/src/main/java/com/personal/portfolio/controller/EmailController.java:243-275 | an invalid address is a 400, a send time before the controller's now a 400; otherwise 200 with the mail scheduled the remaining time ahead when the arguments are valid and the send time is still strictly ahead when the service is reached, else 500 with nothing scheduled |
| EmailController.ScheduleAtNowFails | backend/java/src/main/java/com/personal/portfolio/controller/EmailController.java:261-267 | a send time equal to now passes the controller's check, but the proxy's @Future refuses it: 500 with nothing scheduled |
| EmailController.ScheduleNeverWarns | backend/java/src/main/java/com/personal/portfolio/controller/EmailController.java:243-275 | nothing scheduled through the endpoint reaches the service's past-time warning; every scheduled mail is answered 200 |
| JwtFilterCommon.BearerToken | backend/java/src/main/java/com/personal/portfolio/config/JwtAuthenticationFilter.java:52-59 | a token exactly when the header is present and starts with the bearer prefix, and the header is then that prefix followed by the token |
| JwtFilterCommon.BearerTokenRoundTrip | backend/java/src/main/java/com/personal/portfolio/config/JwtAuthenticationFilter.java:53-59 | a bearer header gives back exactly the token put into it |
| JwtFilterCommon.Authenticate | backend/java/src/main/java/com/personal/portfolio/config/JwtAuthenticationFilter.java:68-81 | a principal is produced only for a token whose subject loads as that principal, is valid for it and belongs to an enabled user; a failure exactly when one of the three service calls throws |
| JwtFilterCommon.Unauthorized | backend/java/src/main/java/com/personal/portfolio/config/JwtAuthenticationFilter.java:82-86 | always 401; the reason is Token expired exactly when the exception's message mentions expiry, otherwise Invalid token |
| JwtAuthenticationFilter.DoFilter | backend/java/src/main/java/com/personal/portfolio/config/JwtAuthenticationFilter.java:42-91 | the chain runs exactly when no error is sent; an error is a 401 with the context cleared; the login and signup paths, a missing or non-bearer header and an already authenticated context pass through untouched; a changed context holds the principal the token authenticates |
| JwtAuthenticationFilter.AuthenticatesIff | backend/java/src/main/java/com/personal/portfolio/config/JwtAuthenticationFilter.java:68-90 | a bearer token authenticates a principal exactly when its subject loads as it, the token is valid for it and it is enabled |
| JwtAuthenticationFilter.FailureIsUnauthorized | backend/java/src/main/java/com/personal/portfolio/config/JwtAuthenticationFilter.java:82-86 | a token whose processing throws never reaches the rest of the chain, and the reply says Token expired exactly when the exception mentioned expiry |
| SecurityJwtAuthenticationFilter.DoFilter | backend/java/src/main/java/com/personal/portfolio/config/security/JwtAuthenticationFilter.java:41-82 | when it returns, the chain has run; public paths, any existing authentication and a missing bearer header pass through; an exception escapes only from the token processing on a protected path with an empty context |
| SecurityJwtAuthenticationFilter.AgreesWithConfigFilter | backend/java/src/main/java/com/personal/portfolio/config/security/JwtAuthenticationFilter.java:41-82 | on a protected path with an empty context it throws exactly where the config filter answers 401, and otherwise passes on the same context |
| SecurityJwtAuthenticationFilter.DiffersFromConfigFilter | backend/java/src/main/java/com/personal/portfolio/config/security/JwtAuthenticationFilter.java:36-46 | /auth/refresh is public here but authenticated by the config filter, and an unauthenticated context entry stops processing here but not there |
| LegacyJwtAuthenticationFilter.DoFilter | backend/java/src/main/java/com/portfolio/portfolio/config/JwtAuthenticationFilter.java:29-79 | the chain runs exactly when no error is sent, and an error clears the context and names expiry or an invalid token |
| LegacyJwtAuthenticationFilter.SameAsCurrent | backend/java/src/main/java/com/portfolio/portfolio/config/JwtAuthenticationFilter.java:29-79 | decides every request exactly as the current config filter does |
| RateLimitBuckets.NewBucket | backend/java/src/main/java/com/personal/portfolio/config/RateLimitingFilter.java:82-85 | a new bucket is full: as many tokens available as its capacity |
| RateLimitBuckets.Admit | backend/java/src/main/java/com/personal/portfolio/config/RateLimitingFilter.java:44-47 | the key's stored bucket, or the created one when the key is new, gives one token when it has one and otherwise admits nothing; only that key's entry changes |
| RateLimitBuckets.Run | backend/java/src/main/java/com/personal/portfolio/config/RateLimitingFilter.java:39-55 | one admission verdict per request |
| RateLimitBuckets.RunInvariant | backend/java/src/main/java/com/personal/portfolio/config/RateLimitingFilter.java:44-47 | a key has a bucket exactly when some request carried it; the bucket has the rule of the key's first request and has given one token per admitted request |
| RateLimitBuckets.AdmittedUpToCapacity | backend/java/src/main/java/com/personal/portfolio/config/RateLimitingFilter.java:44-54 | of requests with no time elapsing between them, a key admits exactly the smaller of its request count and the capacity of its first bucket |
| RateLimitingFilter.Category | backend/java/src/main/java/com/personal/portfolio/config/RateLimitingFilter.java:57-70 | one of auth, email and general |
| RateLimitingFilter.Capacity | backend/java/src/main/java/com/personal/portfolio/config/RateLimitingFilter.java:72-80 | one of 5, 3 and 10 requests a minute |
| RateLimitingFilter.CategoryFixesCapacity | backend/java/src/main/java/com/personal/portfolio/config/RateLimitingFilter.java:57-80 | the key's category and the bucket's capacity are decided by the same tests: auth is 5, email is 3, everything else 10, one capacity per category |
| RateLimitingFilter.DoFilter | backend/java/src/main/java/com/personal/portfolio/config/RateLimitingFilter.java:39-93 | forwarded exactly when the key's bucket (new and full for a new key) has a token left, with the capacity, the remaining tokens and the refill seconds as headers; otherwise 429 with Retry-After and the fixed text; a first request is always forwarded |
| RateLimitingFilter.AuthAttemptsLimited | backend/java/src/main/java/com/personal/portfolio/config/RateLimitingFilter.java:61-74 | of repeated sign-in requests from one address with no time elapsing between them exactly the first five pass |
| SecurityRateLimitingFilter.FirstMatch | backend/java/src/main/java/com/personal/portfolio/config/security/RateLimitingFilter.java:59-62 | the first key in the iteration order that prefixes the URI, none exactly when no key does |
| SecurityRateLimitingFilter.KeysExclusive | backend/java/src/main/java/com/personal/portfolio/config/security/RateLimitingFilter.java:28-32 | no URI starts with two different keys of the rule table |
| SecurityRateLimitingFilter.Category | backend/java/src/main/java/com/personal/portfolio/config/security/RateLimitingFilter.java:57-64 | always a key of the rule table |
| SecurityRateLimitingFilter.RuleFor | backend/java/src/main/java/com/personal/portfolio/config/security/RateLimitingFilter.java:66-71 | the rule of the category the key resolution picks |
| SecurityRateLimitingFilter.CategoryIgnoresOrder | backend/java/src/main/java/com/personal/portfolio/config/security/RateLimitingFilter.java:57-71 | whatever the iteration order, the category is the prefix the URI starts with, else default, and the capacity and refill period are the config filter's |
| SecurityRateLimitingFilter.DoFilter | backend/java/src/main/java/com/personal/portfolio/config/security/RateLimitingFilter.java:39-100 | forwarded exactly when the key's bucket has a token left, with the rate headers; otherwise 429 with Retry-After and a JSON body naming the refill seconds |
| SecurityRateLimitingFilter.AgreesWithConfigFilter | backend/java/src/main/java/com/personal/portfolio/config/security/RateLimitingFilter.java:39-100 | with buckets of the same state, the two filters forward exactly alike and send the same headers |
| ProfileService.GetProfile | backend/java/src/main/java/com/personal/portfolio/service/ProfileService.java:19-22 | profile 1 when stored, otherwise a runtime failure |
| ProfileService.Keep | backend/java/src/main/java/com/personal/portfolio/service/ProfileService.java:27-41 | the incoming value wins exactly when present and not blank, otherwise the stored one stays |
| ProfileService.Merge | backend/java/src/main/java/com/personal/portfolio/service/ProfileService.java:24-46 | each text field follows the non-blank rule, the properties are replaced whenever the update object's map is not null (an empty map included), the identity and creation time are kept and the update time is now |
| ProfileService.Save | backend/java/src/main/java/com/personal/portfolio/model/Profile.java:30 | refused with a data-integrity failure exactly when another profile holds the address; otherwise that row is replaced, and addresses stay unique |
| ProfileService.UpdateProfile | backend/java/src/main/java/com/personal/portfolio/service/ProfileService.java:24-48 | a missing profile 1 is a runtime failure; success stores the merge in place of profile 1 and keeps addresses unique; an update that leaves the address alone always succeeds |
| ProfileService.UpdateIdempotent | backend/java/src/main/java/com/personal/portfolio/service/ProfileService.java:24-48 | for the service called directly, an update object whose fields and properties map are all null only refreshes the timestamp (through the endpoint such an object needs an explicit `"properties": null`), and repeating an update changes nothing but the timestamp |
| ProfileService.Bind | backend/java/src/main/java/com/personal/portfolio/model/Profile.java:52 | a text member left out or null binds to null; `properties` left out binds to the empty map, null to null, a given map to itself |
| ProfileService.PutProfile | backend/java/src/main/java/com/personal/portfolio/controller/PortfolioProfileController.java:34-38 | the endpoint stores the service's merge of the bound body into profile 1, or fails when profile 1 is missing |
| ProfileService.OmittedPropertiesClearMap | backend/java/src/main/java/com/personal/portfolio/model/Profile.java:52 | through the endpoint a body without `properties` empties the stored properties, an explicit null keeps them, a given map replaces them |
| ProfileService.NameOnlyBodyClearsProperties | backend/java/src/main/java/com/personal/portfolio/controller/PortfolioProfileController.java:34-38 | a body naming only the full name sets it and wipes existing properties |
| ProfileService.AddProperty | backend/java/src/main/java/com/personal/portfolio/service/ProfileService.java:50-56 | a missing profile is a runtime failure; otherwise only that profile changes, its properties gain the new ones, overriding equal keys and keeping the rest |
| ProfileService.AddPropertyIdempotent | backend/java/src/main/java/com/personal/portfolio/service/ProfileService.java:50-56 | adding the same properties twice is adding them once |
| ProfileService.GetPropertiesByProfileId | backend/java/src/main/java/com/personal/portfolio/service/ProfileService.java:58-61 | as written, profile 1's properties whatever id is asked for |
| ProfileService.AddThenGetMissesOtherProfile | backend/java/src/main/java/com/personal/portfolio/service/ProfileService.java:50-61 | properties added to profile 2 are not what its lookup returns, and a lookup for a missing profile still answers |
| ProfileService.GetPropertiesByProfileIdIntended | backend/java/src/main/java/com/personal/portfolio/service/ProfileService.java:58-61 | corrected: the asked profile's properties, a runtime failure exactly when it is missing |
| ProfileService.AddThenGetIntended | backend/java/src/main/java/com/personal/portfolio/service/ProfileService.java:50-61 | corrected: a lookup sees every property added to that profile, and on profile 1 both versions agree |
| Bootstrap.InitDatabase | backend/java/src/main/java/com/personal/portfolio/PortfolioApplication.java:48-72 | incomplete settings or an existing address change nothing; an administrator breaking the entity constraints is a constraint violation; otherwise exactly one user is appended after the existing rows with the configured name and address and role ADMIN, but disabled; the table stays well formed |
| Bootstrap.SeedingIdempotent | backend/java/src/main/java/com/personal/portfolio/PortfolioApplication.java:50-68 | seeding twice is seeding once, and the administrator can then be found by address |
| Bootstrap.SeededAdminIsDisabled | backend/java/src/main/java/com/personal/portfolio/service/UserService.java:63-65 | the seeded administrator is not enabled, since account creation overrides the flag the runner set |
| Bootstrap.InitDatabaseIntended | backend/java/src/main/java/com/personal/portfolio/PortfolioApplication.java:56-64 | corrected: incomplete settings or an existing address change nothing |
| Bootstrap.SeededAdminIntendedEnabled | backend/java/src/main/java/com/personal/portfolio/PortfolioApplication.java:56-64 | corrected: created and then activated, the administrator is enabled, keeps role ADMIN, and the table stays well formed |
| BcryptProperties.Violations | backend/java/src/main/java/com/personal/portfolio/config/core/BcryptProperties.java:20-43 | a message per broken constraint and only those: strength null, below 4 or above 31, a mode other than STANDARD or LEGACY, debug logging with a strength above 10 or unset |
| BcryptProperties.ValidateStrength | backend/java/src/main/java/com/personal/portfolio/config/core/ApplicationConfiguration.java:34-40 | accepted exactly for a strength in 4..31; an unset strength is a null-pointer failure, one out of range an illegal-argument failure |
| BcryptProperties.ConstraintsAgreeWithStartup | backend/java/src/main/java/com/personal/portfolio/config/core/ApplicationConfiguration.java:34-40 | the defaults break nothing, properties breaking nothing pass the start-up check, and the check accepts exactly the strengths the declared constraints accept |
| QuizDashboard.Question | frontend/angular/src/app/quiz-dashboard/quiz-dashboard.component.ts:77-79 | the current question is one of the quiz's questions |
| QuizDashboard.CheckAnswer | frontend/angular/src/app/quiz-dashboard/quiz-dashboard.component.ts:81-88 | the choice is recorded and revealed, the count grows by one exactly for a correct option, and the question and finish flag stay |
| QuizDashboard.NextOrFinish | frontend/angular/src/app/quiz-dashboard/quiz-dashboard.component.ts:90-98 | the index never leaves the list; the quiz is finished exactly when it was or the last question was showing; otherwise the next question comes with a fresh selection; the count is kept |
| QuizDashboard.Score | frontend/angular/src/app/quiz-dashboard/quiz-dashboard.component.ts:101 | never negative; at most 100 exactly when no more answers counted than there are questions, and 100 exactly when all of them did |
| QuizDashboard.Advice | frontend/angular/src/app/quiz-dashboard/quiz-dashboard.component.ts:102-112 | the perfect-score advice exactly at 100, the great advice from 75 below 100, the poor advice exactly below 50 |
| QuizDashboard.Results | frontend/angular/src/app/quiz-dashboard/quiz-dashboard.component.ts:100-115 | the score of the state with the advice for that score |
| QuizDashboard.Restart | frontend/angular/src/app/quiz-dashboard/quiz-dashboard.component.ts:117-123 | restarting returns to the state the dashboard starts in |
| QuizDashboard.CorrectChoices | frontend/angular/src/app/quiz-dashboard/quiz-dashboard.component.ts:85-87 | never more correct choices than choices |
| QuizDashboard.Play | frontend/angular/src/app/quiz-dashboard/quiz-dashboard.component.ts:81-98 | answering each question once and moving on keeps the index on the next question until the last, where the quiz finishes; the count is the number of correct choices |
| QuizDashboard.SessionScore | frontend/angular/src/app/quiz-dashboard/quiz-dashboard.component.ts:81-115 | after one answer per question the score lies in 0..100, and the advice is the perfect one exactly when every choice was correct |
| QuizDashboard.AllCorrect | frontend/angular/src/app/quiz-dashboard/quiz-dashboard.component.ts:85-87 | every choice counts exactly when every chosen option is correct |
| QuizDashboard.RepeatedChecksCount | frontend/angular/src/app/quiz-dashboard/quiz-dashboard.component.ts:81-115 | clicking the same correct option five times scores 125 percent, and the advice is then not the perfect one |
| SkillsCarousel.Translate | frontend/angular/src/app/skills-carousel/skills-carousel.component.ts:65-67 | the shift is minus the index in slides: not positive exactly for a non-negative index |
| SkillsCarousel.Next | frontend/angular/src/app/skills-carousel/skills-carousel.component.ts:42-49 | from a non-negative index the result is inside the list, and it is either the start or one slide further; the shift follows the index |
| SkillsCarousel.Prev | frontend/angular/src/app/skills-carousel/skills-carousel.component.ts:51-58 | as written: back one slide from a positive index, from the start to eight minus the slide width |
| SkillsCarousel.PrevGoesNegative | frontend/angular/src/app/skills-carousel/skills-carousel.component.ts:51-58 | three slides back from the start with three skills a slide lands on -1, shifting the strip the wrong way, and the next slide is then misaligned |
| SkillsCarousel.PrevIntended | frontend/angular/src/app/skills-carousel/skills-carousel.component.ts:51-58 | corrected: from inside the list the index stays inside it |
| SkillsCarousel.NextPrevIntendedInverse | frontend/angular/src/app/skills-carousel/skills-carousel.component.ts:42-58 | on slide starts, next and the corrected prev stay on slide starts and undo each other |
| SkillsCarousel.GoToSkill | frontend/angular/src/app/skills-carousel/skills-carousel.component.ts:60-63 | jumps to the given index with the matching shift |
| SkillsCarousel.ItemsPerSlide | frontend/angular/src/app/skills-carousel/skills-carousel.component.ts:76-85 | three skills a slide exactly from 1024 pixels, one exactly below 640, two in between |
| SkillsCarousel.ItemsPerSlideMonotone | frontend/angular/src/app/skills-carousel/skills-carousel.component.ts:76-85 | a wider window never shows fewer skills a slide |
| SkillsCarousel.UpdateItemsPerSlide | frontend/angular/src/app/skills-carousel/skills-carousel.component.ts:76-85 | the slide width follows the window, the index is kept and the shift recomputed |
| SkillsCarousel.DotsCount | frontend/angular/src/app/skills-carousel/skills-carousel.component.ts:87-89 | the fewest slides holding all eight skills |
| SkillsCarousel.HandleKeyPress | frontend/angular/src/app/skills-carousel/skills-carousel.component.ts:91-97 | the left arrow goes back, the right arrow forward, other keys change nothing |
| Navigation.LastCovering | frontend/angular/src/app/navigation/navigation.component.ts:68-80 | none exactly when no section covers the position; otherwise a covering section after which none covers it |
| Navigation.OnScroll | frontend/angular/src/app/navigation/navigation.component.ts:57-81 | the active section becomes the last section covering the scroll position plus the offset, and stays when none does |
| Navigation.ScrollSelectsCoveringSection | frontend/angular/src/app/navigation/navigation.component.ts:68-80 | the only section covering the position is the one selected |
| Navigation.FindIndex | frontend/angular/src/app/navigation/navigation.component.ts:88-89 | the first position holding the id, -1 exactly when none does |
| Navigation.Direction | frontend/angular/src/app/navigation/navigation.component.ts:85-92 | a direction exactly for the four navigation keys, forward exactly for the down arrow and s |
| Navigation.KeyTarget | frontend/angular/src/app/navigation/navigation.component.ts:84-99 | a target exactly for a navigation key while the active section is listed, and the target is a listed section |
| Navigation.KeyNavigationRoundTrip | frontend/angular/src/app/navigation/navigation.component.ts:88-98 | with distinct ids, down then up returns to the section, and the keys stop at both ends |
| Navigation.DefaultOrder | frontend/angular/src/app/navigation/navigation.component.ts:84-99 | from the initial section s leads to about and w stays on home |
| HomePager.CardsPerPage | frontend/angular/src/app/home/home.component.ts:170-172 | the whole cards of 200 pixels that fit the width, none exactly below one card's width |
| HomePager.TotalPages | frontend/angular/src/app/home/home.component.ts:160-168 | infinite exactly for zero cards a page, otherwise the fewest pages holding all eight cards |
| HomePager.Init | frontend/angular/src/app/home/home.component.ts:131-168 | the slider starts on page 1 with the initial offset and the page count for the width |
| HomePager.PagePosition | frontend/angular/src/app/home/home.component.ts:179-183 | page 1 sits at no offset, and the percentage is always minus ten times the pixels |
| HomePager.PagePositionInjective | frontend/angular/src/app/home/home.component.ts:179-183 | different pages sit at different offsets |
| HomePager.ChangePage | frontend/angular/src/app/home/home.component.ts:174-177 | the page moves by the increment with the matching offset; the page size and count stay |
| HomePager.ChangePageRoundTrip | frontend/angular/src/app/home/home.component.ts:174-177 | moving back undoes moving forward, and a move stays inside the slider exactly when the target page does |
| HomePager.ChangePageLeavesRange | frontend/angular/src/app/home/home.component.ts:174-177 | one step forward from the last of four pages leaves the slider |
| HomePager.WindowResize | frontend/angular/src/app/home/home.component.ts:115-125 | nothing changes unless the cards a page change; then the page count is recomputed and a page past the end moves to the last page, keeping the slider in range |
| HomePager.ResizeInvariant | frontend/angular/src/app/home/home.component.ts:115-125 | the slider stays in range and consistent across resizes, and resizing twice to one width is resizing once |
| HomePager.NarrowContainerNeverClamps | frontend/angular/src/app/home/home.component.ts:115-125 | below one card's width the page count is infinite, so the page is never clamped |
| AuthInterceptor.Intercept | frontend/angular/src/app/auth/auth.interceptor.ts:22-63 | only the bearer header may be added, exactly when a non-empty token is stored and the URL is no login or signup call, with every other header kept; otherwise the request is unchanged |
| AuthInterceptor.BackendReadsAttachedToken | frontend/angular/src/app/auth/auth.interceptor.ts:61-63 | the backend filters read back exactly the token attached |
| AuthInterceptor.BypassedPathsAreAuthRequests | frontend/angular/src/app/auth/auth.interceptor.ts:40-43 | every path the backend filter lets through unauthenticated is sent without a token, whatever the base URL |
| AuthInterceptor.LoginHistoryGoesUnauthenticated | frontend/angular/src/app/auth/auth.interceptor.ts:40-43 | a protected path that merely mentions login is sent without the token |
| AuthGuard.CanActivate | frontend/angular/src/app/auth/auth.guard.ts:17-35 | allowed exactly when signed in and not on the signup page, or signed out and on it; signed-in users are sent home, others to login with the attempted URL remembered |
| AuthGuard.RedirectThenAllow | frontend/angular/src/app/auth/auth.guard.ts:28-34 | the URL remembered when a visitor is sent to log in lets them through once signed in |

## Left out

- Setup tool I/O: the tkinter window, widgets and status label; the `subprocess` call (an oracle instead); writing the log file and creating its directory (the log is a sequence of messages without timestamps); JSON parsing (the catalogue arrives parsed); the literal command text of the package-manager bootstrap scripts (a configuration parameter).
- Mail transport: the JavaMailSender session, MIME construction, cc, bcc, reply-to and the HTML flag. These only shape the message the server sees, so the server's answer is an oracle. Attachment bytes and file reading become an oracle verdict per upload.
- Scheduling: the `ScheduledExecutorService`, its threads and its shutdown. Only the computed delay and the time test are modelled.
- `escapeHtml4`: characters outside ASCII go through a named-entity table passed as a parameter, not through the library's full entity list.
- Random values: UUIDs, `SecureRandom` bytes and generated HS512 keys are parameters.
- JJWT and HMAC: a token is a claim record plus the key it was signed with. Parsing compares keys instead of checking a signature, and the compact serialisation and JSON encoding of claims are not modelled.
- BCrypt: hashing is an encoder function passed in. Only the `$2` prefix test of the persistence hook is modelled.
- The authentication manager (Spring Security's password and account-status checks) is library code. Its verdict is a parameter.
- Persistence: JPA and transactions are not modelled. A repository is a table of rows with the next id to assign. Each derived finder and JPQL statement is modelled by what it selects or changes. Saving runs the password-hashing hook, then the entity's Bean Validation constraints, then the unique e-mail and phone-number columns; an insert that breaks a constraint fails at once, an update only at commit.
- UserService.CreateUser and LegacyUserService.CreateUser: an incoming identity is dropped and the next one assigned, so a new user is always an insert. With JPA, `save` of an entity that carries an identity merges into that row instead; that path is not modelled. The current controller never reaches `createUser` with a body anyway, since validation refuses every body (see Findings).
- Bean Validation: `@Size` counts UTF-16 code units, the model counts characters. A violation's message is reduced to the name of the refused method. Whether a picture URL is well formed (`@URL`, which asks `java.net.URL` to parse it) is the oracle `isUrl`.
- UserController.CreatedUserIsFound: promised only for a phone number no stored user has; a taken number makes the insert fail and the endpoint answer 500, which CreateUserIntended states.
- UserController.ValidUpdateSucceeds: promised only when the stored phone number, picture and biography still pass their constraints; the update keeps them and the commit re-validates them, so a stored row that no longer passes makes the update answer 500 (UpdateHandler states that case).
- UserRepository.Persist and UserRepository.Merge: when both the e-mail and the phone number clash, which unique constraint the database reports first is not fixed by the schema; the model reports the e-mail's. The phone column's constraint name is generated by Hibernate and is reduced to the column name.
- The login request's `@Valid` checks (address and password non-blank, address well formed) are not modelled; login is modelled from the looked-up account onward.
- The e-mail controller's own parameter constraints (`@Email`, `@NotBlank`, `@Size` on request parameters) are not modelled: the class is not `@Validated`, so whether they run depends on the Spring version. A missing required request parameter is answered 400 by the framework before the handler runs and is not modelled either.
- Clocks: the e-mail service reads the clock after the controller does; the model passes the two readings separately to the schedule endpoint and takes one instant everywhere else.
- Roles: Java's case mapping is modelled on ASCII and on the four characters outside ASCII that map to ASCII letters. A Turkish default locale, which lower-cases I to dotless i, is not modelled.
- Rate limiting: Bucket4j refill over time, Caffeine's expiry after access and size bound, and `ConcurrentHashMap` concurrency are not modelled. No time elapses between the requests considered, so no token comes back.
- RateLimitBuckets.AdmittedUpToCapacity: states the admitted count only for requests arriving at one instant. `Refill.greedy` adds tokens gradually, about one every twelve seconds for the sign-in rule, so five attempts spread over a minute can be followed by more admitted ones; that is not promised here.
- RateLimitingFilter.AuthAttemptsLimited: the limit of five holds for attempts with no time between them, not for every minute-long window, for the greedy-refill reason above.
- Servlet plumbing: the filter chain, response writing and the security context's thread binding. A filter pass is an outcome record stating whether the chain ran, the status sent and the authentication set.
- Framework wiring with no decision logic: security configuration, MVC and Swagger configuration, the landing-page controller and the profile controller's read and add-property endpoints (pass-throughs), the two legacy plain controllers, and the `admin` properties' Bean Validation annotations.
- DTOs: request and response classes appear only as the fields the modelled operations read or return.
- Frontend rendering: the DOM, `scrollIntoView`, vibration, timers, the `isScrolling` flags, the pager's CSS width strings, the question and option texts, and everything visual (three.js, gsap, globe, audio, maps). The home page's template is not part of the model, so whether its buttons guard `changePage` is not stated.
- Frontend services: `auth.service` (local storage, HTTP, token decoding) and the router. The guard's decision is modelled from the authentication flag and the URL; which routes use the guard is not.
- Floating point: the quiz score and the carousel shift are exact `real` values, not IEEE doubles.
- Concurrency: interleaved requests are out of scope. Every operation runs to completion on the state it is given.

## Findings

| source | as written | input that shows it | evidently intended | confidence | as-written member | corrected member |
|---|---|---|---|---|---|---|
| scripts/app_manager.py:93 | the operating-system name is the lower-cased `platform.system()`, which is "darwin" on a Mac, while the package-manager and install branches test "macos" | `platform.system()` returning "Darwin" | a Mac is recognised, Homebrew is checked at start-up and "macos" install commands are used | high, not executed | AppManager.MacHostIsNotDetected | AppManager.IntendedDetectionReachesEveryManager |
| backend/java/src/main/java/com/personal/portfolio/service/JwtService.java:149-152 | a malformed or foreign-signed token makes `parseClaims` throw a plain `RuntimeException`, which `isTokenValid`'s `JwtException` handler does not catch | the non-blank text "garbage", or a token signed with a different key | validation answers false for any token it cannot parse | high, not executed | JwtService.MalformedTokenEscapes | JwtService.IntendedValidationAnswers |
| frontend/angular/src/app/skills-carousel/skills-carousel.component.ts:51-58 | `prev` subtracts a whole slide from any positive index and from 0 jumps to 8 minus the slide width, so the index can become negative | three skills a slide, `prev` three times from index 0: 5, 2, then -1 | the index stays on slide starts inside the list | high, not executed | SkillsCarousel.PrevGoesNegative | SkillsCarousel.NextPrevIntendedInverse |
| backend/java/src/main/java/com/personal/portfolio/service/AuthenticationService.java:79-81 | every `AuthenticationException` other than bad credentials or unknown user, a `DisabledException` included, becomes bad credentials | a disabled account with the right password | the login endpoint answers 403 ACCOUNT_DISABLED, as its own handler does | medium, not executed | AuthenticationController.LoginNeverReportsDisabled | AuthenticationController.DisabledAccountForbidden |
| backend/java/src/main/java/com/personal/portfolio/controller/EmailController.java:166-169 | the status endpoint answers 404 only when the service returns null, which it never does | an id never issued, answered 200 "Email status: UNKNOWN" | 404 for an id the service has no record of | medium, not executed | EmailController.StatusAsWritten | EmailController.Status |
| backend/java/src/main/java/com/personal/portfolio/service/ProfileService.java:58-61 | `getPropertiesByProfileId` ignores its argument and returns profile 1's properties | add a property to profile 2, then look up profile 2 | the lookup returns the given profile's properties, or fails for a missing one | medium, not executed | ProfileService.AddThenGetMissesOtherProfile | ProfileService.AddThenGetIntended |
| backend/java/src/main/java/com/personal/portfolio/controller/UserController.java:71-91 | `createUser` and `updateUser` validate the `User` body, whose password carries `@NotBlank` but is `@JsonIgnore`d, so it never binds and validation always fails | any create or update request, however complete | a complete body is created (201) or updated (200) | high, not executed | UserController.CreateUser | UserController.CreateUserIntended |
| backend/java/src/main/java/com/personal/portfolio/PortfolioApplication.java:62-64 | the seeded administrator is marked enabled, but `createUser` then forces `enabled` to false | a fresh database with complete `admin` properties | the seeded administrator can sign in | medium, not executed | Bootstrap.SeededAdminIsDisabled | Bootstrap.SeededAdminIntendedEnabled |
