/** The user endpoints: registration, profile read and profile update.
    Each endpoint is a method of UserController that works on the store step
    by step. Registration and update are specified by functions giving the
    response and the one account handed to save, if any (Register, Update);
    the profile read states its result directly in its contract. The
    caller's email, which the service reads from the security context, is a
    parameter. */
module UserController {
  import opened Accounts
  import opened CredentialPolicy
  import opened AccountStore

  /** An endpoint's outcome: its response and what it hands to save. */
  datatype Step = Step(response: Response, save: Option<Account>)

  /** convertUserToUserInfo: the profile shows the currency's name and
      nothing else. */
  function ConvertUserToUserInfo(user: Account): (info: UserInfo)
    ensures info.defaultCurrency == Some(user.currency.name)
  {
    UserInfo(Some(user.currency.name))
  }

  /** registerUser: fields present, then email syntax, then duplicate email,
      then the password rule; on success a fresh account with id 0 and the
      supplied or service currency is saved. */
  function Register(rows: seq<Account>, body: UserBody, isEmail: string -> bool,
                    serviceCurrency: Currency): (step: Step)
    ensures body.email.None? || body.password.None? ==> step == Step(RegistrationBadRequest, None)
    ensures body.email.Some? && body.password.Some? && !isEmail(body.email.value) ==>
              step == Step(RegistrationBadRequest, None)
    ensures body.email.Some? && body.password.Some? && isEmail(body.email.value)
            && Lookup(rows, ByEmail(body.email.value)).Some? ==>
              step == Step(Generic(CONFLICT, "User already registered"), None)
    ensures body.email.Some? && body.password.Some? && isEmail(body.email.value)
            && Lookup(rows, ByEmail(body.email.value)).None? && !PasswordRegexMatches(body.password.value) ==>
              step == Step(RegistrationBadRequest, None)
    ensures step.save.Some? <==>
              && body.email.Some? && body.password.Some? && isEmail(body.email.value)
              && Lookup(rows, ByEmail(body.email.value)).None? && PasswordRegexMatches(body.password.value)
    ensures step.save.Some? ==>
              && step.response == Generic(OK, "User registration successful")
              && step.save.value.id == 0
              && step.save.value.email == body.email.value
              && step.save.value.password == body.password.value
              && step.save.value.currency == (if body.defaultCurrency.Some? then body.defaultCurrency.value else serviceCurrency)
  {
    if body.email.None? || body.password.None? then Step(RegistrationBadRequest, None)
    else if !isEmail(body.email.value) then Step(RegistrationBadRequest, None)
    else if Lookup(rows, ByEmail(body.email.value)).Some? then
      Step(Generic(CONFLICT, "User already registered"), None)
    else if !PasswordRegexMatches(body.password.value) then Step(RegistrationBadRequest, None)
    else
      var currency := if body.defaultCurrency.None? then serviceCurrency else body.defaultCurrency.value;
      Step(Generic(OK, "User registration successful"),
           Some(Account(0, body.email.value, body.password.value, currency)))
  }

  /** The currency an update asks for, or the account's own when it asks for
      none. */
  function UpdatedAccount(user: Account, code: Option<string>, catalog: seq<Currency>): (u: Account)
    requires code.Some? ==> CurrencyId(catalog, code.value) != -1
    ensures u.id == user.id && u.email == user.email && u.password == user.password
    ensures code.None? ==> u == user
    ensures code.Some? ==> u.currency.name == code.value && u.currency in catalog
  {
    if code.Some? then user.(currency := ValueOf(catalog, code.value)) else user
  }

  /** updateUser: body present, then caller known, then snapshot, then the
      currency code known, then save, then the snapshot compared with what
      save returned. */
  function Update(rows: seq<Account>, callerEmail: string, body: Option<UserInfo>, cloneOk: bool,
                  catalog: seq<Currency>): (step: Step)
    ensures body.None? ==> step == Step(Generic(BAD_REQUEST, "Missing request body"), None)
    ensures body.Some? && Lookup(rows, ByEmail(callerEmail)).None? ==>
              step == Step(Generic(BAD_REQUEST, "Invalid user"), None)
    ensures body.Some? && Lookup(rows, ByEmail(callerEmail)).Some? && body.value.defaultCurrency.Some?
            && CurrencyId(catalog, body.value.defaultCurrency.value) == -1 ==>
              step == Step(Generic(BAD_REQUEST, body.value.defaultCurrency.value + " is invalid"), None)
    ensures step.save.Some? <==>
              && body.Some? && Lookup(rows, ByEmail(callerEmail)).Some?
              && (body.value.defaultCurrency.Some? ==> CurrencyId(catalog, body.value.defaultCurrency.value) != -1)
    ensures step.save.Some? ==>
              && step.save.value == UpdatedAccount(Lookup(rows, ByEmail(callerEmail)).value,
                                                   body.value.defaultCurrency, catalog)
              && (!cloneOk ==> step.response == Generic(INTERNAL_SERVER_ERROR, "User update failed"))
              && (cloneOk ==> (|| step.response == Generic(OK, "User settings not changed")
                               || step.response == Generic(OK, "User settings updated")))
  {
    if body.None? then Step(Generic(BAD_REQUEST, "Missing request body"), None)
    else
      match Lookup(rows, ByEmail(callerEmail))
      case None => Step(Generic(BAD_REQUEST, "Invalid user"), None)
      case Some(user) =>
        var snapshot := if cloneOk then Some(user) else None;
        var code := body.value.defaultCurrency;
        if code.Some? && CurrencyId(catalog, code.value) == -1 then
          Step(Generic(BAD_REQUEST, code.value + " is invalid"), None)
        else
          var changed := UpdatedAccount(user, code, catalog);
          var saved := Persisted(rows, changed);
          var response :=
            if snapshot.None? then Generic(INTERNAL_SERVER_ERROR, "User update failed")
            else if snapshot.value == saved then Generic(OK, "User settings not changed")
            else Generic(OK, "User settings updated");
          Step(response, Some(changed))
  }

  /** Missing fields and a malformed email are decided without the store:
      the outcome is the same whatever the store holds. */
  lemma RegisterBadInputIgnoresStore(rows1: seq<Account>, rows2: seq<Account>, body: UserBody,
                                     isEmail: string -> bool, serviceCurrency: Currency)
    requires body.email.None? || body.password.None? || !isEmail(body.email.value)
    ensures Register(rows1, body, isEmail, serviceCurrency) == Register(rows2, body, isEmail, serviceCurrency)
    ensures Register(rows1, body, isEmail, serviceCurrency) == Step(RegistrationBadRequest, None)
  {
  }

  /** A successful registration is found by its email afterwards, under a
      fresh non-zero id, with the currency it was registered with. */
  lemma RegisteredAccountFound(rows: seq<Account>, body: UserBody, isEmail: string -> bool,
                               serviceCurrency: Currency)
    requires Register(rows, body, isEmail, serviceCurrency).save.Some?
    ensures var a := Register(rows, body, isEmail, serviceCurrency).save.value;
            var after := Saved(rows, a);
            && Lookup(after, ByEmail(body.email.value)) == Some(Persisted(rows, a))
            && Persisted(rows, a).id != 0
            && Lookup(rows, ById(Persisted(rows, a).id)).None?
  {
    var a := Register(rows, body, isEmail, serviceCurrency).save.value;
    var p, after := Persisted(rows, a), Saved(rows, a);
    assert FirstIndex(rows, ById(p.id)) == -1;
    assert after == rows + [p];
    assert FirstIndex(after, ByEmail(body.email.value)) == |rows| by {
      assert forall j :: 0 <= j < |rows| ==> after[j] == rows[j];
      assert Matches(after[|rows|], ByEmail(body.email.value));
    }
  }

  /** Registering an email a second time is a conflict, whatever the other
      fields of the second request, once the first succeeded. */
  lemma RegisterTwiceConflicts(rows: seq<Account>, first: UserBody, second: UserBody,
                               isEmail: string -> bool, serviceCurrency: Currency)
    requires Register(rows, first, isEmail, serviceCurrency).save.Some?
    requires second.email == first.email && second.password.Some?
    ensures var after := AfterSave(rows, Register(rows, first, isEmail, serviceCurrency).save);
            Register(after, second, isEmail, serviceCurrency) == Step(Generic(CONFLICT, "User already registered"), None)
  {
    var a := Register(rows, first, isEmail, serviceCurrency).save.value;
    SavePersists(rows, a);
  }

  /** Registration keeps the account facts, given that every currency it can
      store belongs to the catalog. */
  lemma RegisterKeepsInvariant(rows: seq<Account>, body: UserBody, isEmail: string -> bool,
                               serviceCurrency: Currency, catalog: seq<Currency>)
    requires AccountsInvariant(rows, catalog)
    requires serviceCurrency in catalog
    requires body.defaultCurrency.Some? ==> body.defaultCurrency.value in catalog
    ensures AccountsInvariant(AfterSave(rows, Register(rows, body, isEmail, serviceCurrency).save), catalog)
  {
    var step := Register(rows, body, isEmail, serviceCurrency);
    if step.save.Some? {
      var a := step.save.value;
      SaveKeepsValid(rows, a);
      SaveKeepsUniqueEmails(rows, a);
      var after := Saved(rows, a);
      forall j | 0 <= j < |after| ensures after[j].currency in catalog {
        if after[j] == Persisted(rows, a) {
          assert after[j].currency == a.currency;
        }
      }
    }
  }

  /** An update that asks for no currency, or for the account's own, saves
      the account as it was, leaves the store as it was, and answers "not
      changed". */
  lemma UpdateSameCurrencyNotChanged(rows: seq<Account>, callerEmail: string, body: UserInfo,
                                     catalog: seq<Currency>)
    requires ValidRows(rows)
    requires Lookup(rows, ByEmail(callerEmail)).Some?
    requires var user := Lookup(rows, ByEmail(callerEmail)).value;
             body.defaultCurrency.None? || (body.defaultCurrency == Some(user.currency.name) && user.currency in catalog)
    ensures var step := Update(rows, callerEmail, Some(body), true, catalog);
            && step == Step(Generic(OK, "User settings not changed"), Lookup(rows, ByEmail(callerEmail)))
            && AfterSave(rows, step.save) == rows
  {
    var k := FirstIndex(rows, ByEmail(callerEmail));
    var user := rows[k];
    if body.defaultCurrency.Some? {
      var code := body.defaultCurrency.value;
      assert CurrencyId(catalog, code) != -1;
      assert ValueOf(catalog, code) == user.currency;
    }
    SaveStoredRowIsNoop(rows, k);
  }

  /** An update to a different known currency answers "updated", and a
      later profile read shows the new currency. */
  lemma UpdateNewCurrencyUpdated(rows: seq<Account>, callerEmail: string, code: string,
                                 catalog: seq<Currency>)
    requires ValidRows(rows)
    requires Lookup(rows, ByEmail(callerEmail)).Some?
    requires CurrencyId(catalog, code) != -1
    requires code != Lookup(rows, ByEmail(callerEmail)).value.currency.name
    ensures var step := Update(rows, callerEmail, Some(UserInfo(Some(code))), true, catalog);
            var after := AfterSave(rows, step.save);
            var user := Lookup(rows, ByEmail(callerEmail)).value;
            && step.response == Generic(OK, "User settings updated")
            && Lookup(after, ByEmail(callerEmail)) == Some(user.(currency := ValueOf(catalog, code)))
            && ConvertUserToUserInfo(Lookup(after, ByEmail(callerEmail)).value).defaultCurrency == Some(code)
  {
    var k := FirstIndex(rows, ByEmail(callerEmail));
    var user := rows[k];
    var changed := user.(currency := ValueOf(catalog, code));
    assert Persisted(rows, changed) == changed;
    SaveFoundRowIsFound(rows, callerEmail, changed);
  }

  /** When the snapshot fails, a valid update is still saved before the 500
      is answered. */
  lemma UpdateSnapshotFailedStillSaves(rows: seq<Account>, callerEmail: string, body: UserInfo,
                                       catalog: seq<Currency>)
    requires ValidRows(rows)
    requires Lookup(rows, ByEmail(callerEmail)).Some?
    requires body.defaultCurrency.Some? ==> CurrencyId(catalog, body.defaultCurrency.value) != -1
    ensures var step := Update(rows, callerEmail, Some(body), false, catalog);
            var user := Lookup(rows, ByEmail(callerEmail)).value;
            && step.response == Generic(INTERNAL_SERVER_ERROR, "User update failed")
            && Lookup(AfterSave(rows, step.save), ByEmail(callerEmail))
               == Some(UpdatedAccount(user, body.defaultCurrency, catalog))
  {
    var k := FirstIndex(rows, ByEmail(callerEmail));
    SaveFoundRowIsFound(rows, callerEmail, UpdatedAccount(rows[k], body.defaultCurrency, catalog));
  }

  /** An update keeps the account facts. */
  lemma UpdateKeepsInvariant(rows: seq<Account>, callerEmail: string, body: Option<UserInfo>,
                             cloneOk: bool, catalog: seq<Currency>)
    requires AccountsInvariant(rows, catalog)
    ensures AccountsInvariant(AfterSave(rows, Update(rows, callerEmail, body, cloneOk, catalog).save), catalog)
  {
    var step := Update(rows, callerEmail, body, cloneOk, catalog);
    if step.save.Some? {
      var a := step.save.value;
      var k := FirstIndex(rows, ByEmail(callerEmail));
      assert a.id == rows[k].id && a.email == rows[k].email;
      assert Persisted(rows, a) == a;
      assert forall j :: 0 <= j < |rows| && rows[j].email == a.email ==> rows[j].id == a.id;
      SaveKeepsValid(rows, a);
      SaveKeepsUniqueEmails(rows, a);
      var after := Saved(rows, a);
      forall j | 0 <= j < |after| ensures after[j].currency in catalog {
        if after[j] != a { assert after[j] == rows[j]; }
      }
    }
  }

  class UserController {
    const repository: Store
    /** The currency catalog, read-only for the life of the process. */
    const catalog: seq<Currency>
    /** The service's default currency constant. */
    const serviceCurrency: Currency
    /** The email syntax check of the validation library. */
    const isEmail: string -> bool

    constructor (repository: Store, catalog: seq<Currency>, serviceCurrency: Currency, isEmail: string -> bool)
      ensures this.repository == repository && this.catalog == catalog
      ensures this.serviceCurrency == serviceCurrency && this.isEmail == isEmail
    {
      this.repository := repository;
      this.catalog := catalog;
      this.serviceCurrency := serviceCurrency;
      this.isEmail := isEmail;
    }

    /** getUserInfo: 400 "Invalid user" when no account has the caller's
        email, otherwise that account's profile. */
    method GetUserInfo(callerEmail: string) returns (resp: Response)
      ensures (forall j :: 0 <= j < |repository.rows| ==> repository.rows[j].email != callerEmail) ==>
                resp == Generic(BAD_REQUEST, "Invalid user")
      ensures Lookup(repository.rows, ByEmail(callerEmail)).Some? ==>
                resp == Info(ConvertUserToUserInfo(Lookup(repository.rows, ByEmail(callerEmail)).value))
    {
      var optUser := repository.FindOneByEmail(callerEmail);
      if optUser.None? {
        return Generic(BAD_REQUEST, "Invalid user");
      }
      var user := optUser.value;
      var userInfo := ConvertUserToUserInfo(user);
      return Info(userInfo);
    }

    method RegisterUser(body: UserBody) returns (resp: Response)
      modifies repository
      ensures var step := Register(old(repository.rows), body, isEmail, serviceCurrency);
              resp == step.response && repository.rows == AfterSave(old(repository.rows), step.save)
      ensures old(AccountsInvariant(repository.rows, catalog)) && serviceCurrency in catalog
              && (body.defaultCurrency.Some? ==> body.defaultCurrency.value in catalog) ==>
                AccountsInvariant(repository.rows, catalog)
    {
      if serviceCurrency in catalog && (body.defaultCurrency.Some? ==> body.defaultCurrency.value in catalog)
         && AccountsInvariant(repository.rows, catalog) {
        RegisterKeepsInvariant(repository.rows, body, isEmail, serviceCurrency, catalog);
      }
      if body.email.None? || body.password.None? {
        return RegistrationBadRequest;
      }
      if !isEmail(body.email.value) {
        return RegistrationBadRequest;
      }
      var optUser := repository.FindOneByEmail(body.email.value);
      if optUser.Some? {
        return Generic(CONFLICT, "User already registered");
      }
      if !PasswordRegexMatches(body.password.value) {
        return RegistrationBadRequest;
      }
      var user := body;
      if user.defaultCurrency.None? {
        user := user.(defaultCurrency := Some(serviceCurrency));
      }
      user := user.(id := 0);
      var _ := repository.Save(Account(user.id, user.email.value, user.password.value, user.defaultCurrency.value));
      return Generic(OK, "User registration successful");
    }

    method UpdateUser(callerEmail: string, body: Option<UserInfo>, cloneOk: bool) returns (resp: Response)
      modifies repository
      ensures var step := Update(old(repository.rows), callerEmail, body, cloneOk, catalog);
              resp == step.response && repository.rows == AfterSave(old(repository.rows), step.save)
      ensures old(AccountsInvariant(repository.rows, catalog)) ==> AccountsInvariant(repository.rows, catalog)
    {
      if AccountsInvariant(repository.rows, catalog) {
        UpdateKeepsInvariant(repository.rows, callerEmail, body, cloneOk, catalog);
      }
      if body.None? {
        return Generic(BAD_REQUEST, "Missing request body");
      }
      var optUser := repository.FindOneByEmail(callerEmail);
      if optUser.None? {
        return Generic(BAD_REQUEST, "Invalid user");
      }
      var user := optUser.value;
      var userCopy: Option<Account> := None;
      if cloneOk {
        userCopy := Some(user);
      }
      if body.value.defaultCurrency.Some? {
        var currency := body.value.defaultCurrency.value;
        var id := CurrencyId(catalog, currency);
        if id == -1 {
          return Generic(BAD_REQUEST, currency + " is invalid");
        }
        user := user.(currency := ValueOf(catalog, currency));
      }
      user := repository.Save(user);
      if userCopy.None? {
        return Generic(INTERNAL_SERVER_ERROR, "User update failed");
      }
      if userCopy.value == user {
        return Generic(OK, "User settings not changed");
      }
      return Generic(OK, "User settings updated");
    }
  }
}
