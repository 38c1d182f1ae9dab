# Account lifecycle of the car-rental user service

This project models the decision logic of the user service's account
lifecycle over an in-memory account store:

- registration (`registerUser`): the checks run in a fixed order, then the
  account is defaulted and saved;
- profile read (`getUserInfo`) and the currency projection
  (`convertUserToUserInfo`);
- profile update (`updateUser`): body check, caller lookup, snapshot,
  currency validation, save, then a comparison that picks the answer;
- the startup listener (`ApplicationStartup.onApplicationEvent`), which makes
  sure the administrative account exists.

Modules, one per component:

- `Accounts` (`accounts.dfy`): the account, the request bodies, the
  responses, and the currency catalog lookup `getCurrencyId` / `valueOf`.
- `CredentialPolicy` (`credential_policy.dfy`): the registration password
  regex, written out as predicates over the regex's lookaheads and its
  bounded dot. It is proved equal to the plain rule: 6 to 16 characters, no
  line terminator, and at least one lowercase letter, digit, `@#$%` symbol
  and uppercase letter.
- `AccountStore` (`account_store.dfy`): the repository as a `Store` class
  holding a sequence of rows. It offers `FindById`, `FindOneByEmail`,
  `FindAll` and `Save`, specified by the functions `Lookup`, `Persisted` and
  `Saved`.
- `UserController` (`user_controller.dfy`): the controller's endpoints as
  methods of a `UserController` class. Registration and update are specified
  by functions (`Register`, `Update`) that give the response and the single
  account handed to save, if any. The profile read states its result
  directly in its contract.
- `ApplicationStartup` (`application_startup.dfy`): the startup listener as a
  method of an `ApplicationStartup` class, specified by `Bootstrap`.

Collaborators the model cannot see are parameters by design. Each controller
or listener object receives them as constants:

- the email syntax check `isEmail`;
- the password encoder `encode`;
- the service default currency `serviceCurrency`;
- the currency catalog `catalog`.

Each endpoint method receives the rest as parameters: the caller's email and
whether cloning the account succeeds (`cloneOk`).

The documented behaviour of the service differs from its code in the
points below. The model follows the code:

- Registration looks up a duplicate email before it applies the password
  rule. A duplicate email with a weak password therefore gets 409, not 400.
  The documented behaviour lists the password rule with the other 400 checks,
  before the duplicate check.
- The documented behaviour says a second registration of an email gets 409
  whatever its other fields differ in. In the code, a missing email or
  password is refused with 400 before the duplicate lookup, so a second
  registration without a password gets 400 and not 409
  (`RegisterBadInputIgnoresStore` holds for every store).
- `updateUser` checks for a missing body before it looks up the caller. The
  documented behaviour resolves the caller first.
- The password pattern requires a lowercase letter, so `"AB12@X"` is
  rejected. The documented behaviour counts it as accepted.
- The documented behaviour says a registered account's id is never the one the
  client sent. The code only forces the id to 0 before saving, and the
  model claims no more. In the in-memory store the fresh id may happen to
  equal the client's value.

## Model

| member | source | states |
|---|---|---|
| Accounts.FirstMatch | src/main/java/pacApp/pacController/UserController.java:168 | -1 exactly when no element satisfies the test; otherwise the first position that does |
| Accounts.CurrencyId | src/main/java/pacApp/pacController/UserController.java:168-170 | -1 exactly when no catalog entry has the code; otherwise the first entry with that name |
| Accounts.ValueOf | src/main/java/pacApp/pacController/UserController.java:175-176 | a known code yields a catalog currency of that name |
| CredentialPolicy.PasswordRegexMatches | src/main/java/pacApp/pacController/UserController.java:118-120 | the full match of the password pattern: the four lookaheads and a dot repeated 6 to 16 times; a match has 6 to 16 characters and one of each required class |
| CredentialPolicy.PasswordRegexIsPolicy | src/main/java/pacApp/pacController/UserController.java:118-122 | the full-match password regex accepts a string iff it has 6 to 16 characters, no line terminator, and a lowercase letter, a digit, one of @#$% and an uppercase letter |
| CredentialPolicy.PasswordExamples | src/main/java/pacApp/pacController/UserController.java:118 | "Abc123@" is accepted; "abc123", "A" and "AB12@X" are rejected |
| CredentialPolicy.LineTerminatorRefused | src/main/java/pacApp/pacController/UserController.java:118 | a password containing a line terminator is never accepted |
| AccountStore.Lookup | src/main/java/pacApp/pacController/UserController.java:111 | finds nothing iff no row matches the key; otherwise a stored row that matches |
| AccountStore.Persisted | src/main/java/pacApp/pacController/UserController.java:130 | the saved row keeps a non-zero id; an id of 0 is replaced by one no stored row has |
| AccountStore.Saved | src/main/java/pacApp/pacController/UserController.java:181 | after save the persisted row is stored, rows with other ids stay in place, and at most one row is added |
| AccountStore.SavePersists | src/main/java/pacApp/ApplicationStartup.java:66 | after save, a lookup by the persisted id returns the persisted row, and a lookup by the account's email finds a row |
| AccountStore.SaveKeepsValid | src/main/java/pacApp/pacController/UserController.java:181 | save keeps the store's ids non-zero and distinct |
| AccountStore.SaveStoredRowIsNoop | src/main/java/pacApp/pacController/UserController.java:181 | saving a row exactly as stored leaves the store unchanged |
| AccountStore.SaveFoundRowIsFound | src/main/java/pacApp/pacController/UserController.java:181 | saving a changed row under the same id and email makes a later lookup by that email return the changed row |
| AccountStore.SaveKeepsUniqueEmails | src/main/java/pacApp/pacController/UserController.java:130 | save keeps emails distinct when no row with a different id has the saved email |
| AccountStore.Store.FindById | src/main/java/pacApp/ApplicationStartup.java:46 | returns the first row with the id, or nothing |
| AccountStore.Store.FindOneByEmail | src/main/java/pacApp/pacController/UserController.java:81 | returns the first row with the email, or nothing |
| AccountStore.Store.FindAll | src/main/java/pacApp/ApplicationStartup.java:37 | returns every stored row and changes nothing |
| AccountStore.Store.Save | src/main/java/pacApp/pacController/UserController.java:181 | the new rows are the saved rows, the result is the persisted row, and the store invariant is kept |
| UserController.ConvertUserToUserInfo | src/main/java/pacApp/pacController/UserController.java:199-205 | the profile carries only the name of the account's currency |
| UserController.Register | src/main/java/pacApp/pacController/UserController.java:98-135 | missing email or password, then a bad email, give the 400 exception; an existing email gives 409 "User already registered" before the password rule is applied; a weak password gives 400; something is saved iff all checks pass, and then it has id 0, the request's email and password, the supplied currency or the service currency, and the answer is 200 "User registration successful" |
| UserController.RegisterBadInputIgnoresStore | src/main/java/pacApp/pacController/UserController.java:101-109 | missing fields and a malformed email are rejected with the same outcome whatever the store holds, with no save |
| UserController.RegisteredAccountFound | src/main/java/pacApp/pacController/UserController.java:124-134 | after a successful registration a lookup by the email returns the new account, whose id is non-zero and was not in use |
| UserController.RegisterTwiceConflicts | src/main/java/pacApp/pacController/UserController.java:111-116 | once an email is registered, a second registration with that email is 409 with no save, whatever its other fields, provided a password is given |
| UserController.RegisterKeepsInvariant | src/main/java/pacApp/pacController/UserController.java:111-130 | registration keeps ids valid, emails unique and every currency in the catalog |
| UserController.UpdatedAccount | src/main/java/pacApp/pacController/UserController.java:166-177 | an update changes only the currency, to the catalog currency named by the code, or nothing when no code is given |
| UserController.Update | src/main/java/pacApp/pacController/UserController.java:140-197 | absent body gives 400 "Missing request body"; unknown caller gives 400 "Invalid user"; an unknown code gives 400 "<code> is invalid"; all of these save nothing; a save happens iff these checks pass, and then the answer is 500 "User update failed" when the snapshot failed, or else "not changed" or "updated" |
| UserController.UpdateSameCurrencyNotChanged | src/main/java/pacApp/pacController/UserController.java:185-193 | with no currency or the current one, the saved account equals the snapshot, the store is unchanged, and the answer is 200 "User settings not changed" |
| UserController.UpdateNewCurrencyUpdated | src/main/java/pacApp/pacController/UserController.java:166-196 | when the snapshot succeeds, a different known currency gives 200 "User settings updated", and a later lookup and profile read show the new currency |
| UserController.UpdateSnapshotFailedStillSaves | src/main/java/pacApp/pacController/UserController.java:156-188 | when the snapshot fails, a valid update is still saved and the answer is 500 "User update failed" |
| UserController.UpdateKeepsInvariant | src/main/java/pacApp/pacController/UserController.java:166-181 | an update keeps ids valid, emails unique and every currency in the catalog |
| UserController.UserController.GetUserInfo | src/main/java/pacApp/pacController/UserController.java:78-93 | 400 "Invalid user" when no account has the caller's email; otherwise the profile of the account found |
| UserController.UserController.RegisterUser | src/main/java/pacApp/pacController/UserController.java:98-135 | the response and the new store are those Register gives for the old store; the account invariant is kept |
| UserController.UserController.UpdateUser | src/main/java/pacApp/pacController/UserController.java:140-197 | the response and the new store are those Update gives for the old store; the account invariant is kept |
| ApplicationStartup.UserLines | src/main/java/pacApp/ApplicationStartup.java:39-44 | one log line per stored account, in order |
| ApplicationStartup.ExistingSuperuser | src/main/java/pacApp/ApplicationStartup.java:46-58 | nothing iff no row has id 1 or the administrative email; a row with id 1 takes precedence, so the email is consulted only when no id-1 row exists |
| ApplicationStartup.Bootstrap | src/main/java/pacApp/ApplicationStartup.java:46-66 | nothing is saved iff an account with id 1 or, failing that, with "admin@carrental.com" exists; otherwise the account saved has id 1, that email, encode("admin") and the service currency |
| ApplicationStartup.BootstrapEstablishesSuperuser | src/main/java/pacApp/ApplicationStartup.java:46-66 | afterwards the store has an account with id 1 or with the administrative email |
| ApplicationStartup.BootstrapIdempotent | src/main/java/pacApp/ApplicationStartup.java:46-66 | a second run saves nothing and leaves the store as the first run left it |
| ApplicationStartup.BootstrapAddsOneAccount | src/main/java/pacApp/ApplicationStartup.java:60-66 | when it saves, exactly the administrative row is appended, and valid ids and unique emails are kept |
| ApplicationStartup.BootstrapKeepsInvariant | src/main/java/pacApp/ApplicationStartup.java:60-66 | when the service currency is a catalog entry, the listener keeps ids valid, emails unique and every stored currency in the catalog |
| ApplicationStartup.ApplicationStartup.OnApplicationEvent | src/main/java/pacApp/ApplicationStartup.java:33-67 | the new store is Bootstrap applied to the store as it was before findAll, so the findAll pass changes nothing; the log holds the count, each account, then the administrator found, if any |

## Left out

- `serviceInstancesByApplicationName`: a pass-through to service discovery, which is network plumbing.
- `getAllUsers`: a plain `findAll` pass-through. Its forbidden-check is commented out in the source.
- `UserServiceApplication`: framework entry point and encoder bean wiring, with no logic of its own.
- `onApplicationEvent(ContextRefreshedEvent)`: it only logs.
- Email syntax (the validation library's `EmailValidator`) is the parameter `isEmail`. Its grammar is not modelled.
- Password hashing is the parameter `encode`. Whatever `saveUser` does to the password is not modelled, since its body is not part of this model; the model stores the account as passed.
- The currency enum and the service default currency constant are not part of this model. The catalog and the default are parameters. `getCurrencyId` is modelled as "position of the entry with that name, or -1", and `valueOf` as the entry with that name.
- The repository is an interface over a persistence framework. Its id generation and merge-or-insert rules are not part of this model. `Save` is an in-memory rule: id 0 gets one more than the largest id, or 1 when no id is positive; an existing id replaces that row; any other id is appended as given. So the bootstrap account keeps id 1, which a framework that generates ids might not guarantee.
- Store errors, transactions, and races between instances that start at the same time are not modelled.
- The account is a value in the model. The in-place setter calls on the managed entity, and any aliasing between that entity and the store, are not modelled; changes reach the store only through `Save`.
- `User.equals` and `User.clone` are not part of this model. The snapshot comparison is structural equality on the account value. Whether cloning succeeds is the parameter `cloneOk`.
- The registration body's currency is taken to be a catalog constant. In the service the body's currency is bound to the enum, so only its constants reach `registerUser`. `Register` itself saves any currency it is given, and `RegisterKeepsInvariant` and `RegisterUser`'s invariant clause assume it is a catalog entry.
- The service default currency is taken to be a catalog entry, and to be one constant shared by the controller and the startup listener. The model gives each class its own `serviceCurrency` constant, and nothing in the model ties the two together. `BootstrapKeepsInvariant`, `RegisterKeepsInvariant` and `RegisterUser`'s invariant clause assume the currency is in the catalog.
- A stored account with no currency is not representable. In the service, such an account would make `convertUserToUserInfo` fail with a null dereference.
- The registration exception's response body is not part of this model. It is the response `RegistrationBadRequest`, which stands for status 400.
- The caller's identity comes from the security context in the service. Here it is the explicit `callerEmail` parameter.
- Logging by the startup listener is modelled as `LogLine` values in place of formatted text. The event's own log line is not modelled. The controller's own logging is not modelled: the `log.info` of the request body in registration (UserController.java:99) and the `log.error` of the clone failure in update (UserController.java:161).
- The null check on the result of `findAll` is not modelled, because `FindAll` always returns a sequence.
- UTF-16 text is not modelled. Strings are sequences of Unicode scalar values, so strings containing unpaired surrogates cannot be expressed.
