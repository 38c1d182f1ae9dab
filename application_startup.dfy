/** The startup listener that makes sure the administrative account exists:
    it logs every stored account, then stops if an account with id 1 exists,
    then stops if an account with the administrative email exists, and
    otherwise saves a new administrative account. */
module ApplicationStartup {
  import opened Accounts
  import opened AccountStore

  const SUPERUSER_ID: int := 1
  const ADMIN_EMAIL: string := "admin@carrental.com"
  const ADMIN_PASSWORD: string := "admin"

  /** What the listener writes to the log, as values. */
  datatype LogLine = UsersCount(count: nat) | UserLine(user: Account) | SuperuserLine(user: Account)

  function UserLines(users: seq<Account>): (lines: seq<LogLine>)
    ensures |lines| == |users|
    ensures forall j :: 0 <= j < |users| ==> lines[j] == UserLine(users[j])
  {
    if |users| == 0 then [] else UserLines(users[..|users| - 1]) + [UserLine(users[|users| - 1])]
  }

  /** The account already standing for the administrator, if any: the one
      with id 1, else the one with the administrative email. */
  function ExistingSuperuser(rows: seq<Account>): (r: Option<Account>)
    ensures r.Some? ==> r.value in rows && (r.value.id == SUPERUSER_ID || r.value.email == ADMIN_EMAIL)
    ensures (exists j :: 0 <= j < |rows| && rows[j].id == SUPERUSER_ID) ==> r.Some? && r.value.id == SUPERUSER_ID
    ensures r.None? <==> forall j :: 0 <= j < |rows| ==> rows[j].id != SUPERUSER_ID && rows[j].email != ADMIN_EMAIL
  {
    match Lookup(rows, ById(SUPERUSER_ID))
    case Some(u) => Some(u)
    case None => Lookup(rows, ByEmail(ADMIN_EMAIL))
  }

  /** What the listener saves: nothing when an administrator already exists,
      otherwise the account with id 1, the administrative email, the encoded
      default password and the service currency. */
  function Bootstrap(rows: seq<Account>, encode: string -> string, serviceCurrency: Currency): (save: Option<Account>)
    ensures Lookup(rows, ById(SUPERUSER_ID)).Some? ==> save.None?
    ensures save.None? <==>
              Lookup(rows, ById(SUPERUSER_ID)).Some? || Lookup(rows, ByEmail(ADMIN_EMAIL)).Some?
    ensures save.Some? ==>
              save.value == Account(SUPERUSER_ID, ADMIN_EMAIL, encode(ADMIN_PASSWORD), serviceCurrency)
  {
    if Lookup(rows, ById(SUPERUSER_ID)).Some? then None
    else if Lookup(rows, ByEmail(ADMIN_EMAIL)).Some? then None
    else Some(Account(SUPERUSER_ID, ADMIN_EMAIL, encode(ADMIN_PASSWORD), serviceCurrency))
  }

  /** After the listener, an account with id 1 or with the administrative
      email is stored. */
  lemma BootstrapEstablishesSuperuser(rows: seq<Account>, encode: string -> string, serviceCurrency: Currency)
    ensures var after := AfterSave(rows, Bootstrap(rows, encode, serviceCurrency));
            Lookup(after, ById(SUPERUSER_ID)).Some? || Lookup(after, ByEmail(ADMIN_EMAIL)).Some?
  {
    var save := Bootstrap(rows, encode, serviceCurrency);
    if save.Some? {
      SavePersists(rows, save.value);
    }
  }

  /** Running the listener a second time saves nothing, so the store stays
      as the first run left it. */
  lemma BootstrapIdempotent(rows: seq<Account>, encode: string -> string, serviceCurrency: Currency)
    ensures var after := AfterSave(rows, Bootstrap(rows, encode, serviceCurrency));
            && Bootstrap(after, encode, serviceCurrency).None?
            && AfterSave(after, Bootstrap(after, encode, serviceCurrency)) == after
  {
    BootstrapEstablishesSuperuser(rows, encode, serviceCurrency);
  }

  /** When it saves, the listener adds exactly one row, the administrator
      with id 1, and keeps the store's invariant and unique emails. */
  lemma BootstrapAddsOneAccount(rows: seq<Account>, encode: string -> string, serviceCurrency: Currency)
    requires Bootstrap(rows, encode, serviceCurrency).Some?
    ensures var su := Bootstrap(rows, encode, serviceCurrency).value;
            AfterSave(rows, Bootstrap(rows, encode, serviceCurrency)) == rows + [su]
    ensures ValidRows(rows) && UniqueEmails(rows) ==>
              var after := AfterSave(rows, Bootstrap(rows, encode, serviceCurrency));
              ValidRows(after) && UniqueEmails(after)
  {
    var su := Bootstrap(rows, encode, serviceCurrency).value;
    assert Persisted(rows, su) == su;
    assert FirstIndex(rows, ById(su.id)) == -1;
    if ValidRows(rows) && UniqueEmails(rows) {
      SaveKeepsValid(rows, su);
      SaveKeepsUniqueEmails(rows, su);
    }
  }

  /** The listener keeps the account facts, given that the service currency
      belongs to the catalog. */
  lemma BootstrapKeepsInvariant(rows: seq<Account>, encode: string -> string, serviceCurrency: Currency,
                                catalog: seq<Currency>)
    requires AccountsInvariant(rows, catalog)
    requires serviceCurrency in catalog
    ensures AccountsInvariant(AfterSave(rows, Bootstrap(rows, encode, serviceCurrency)), catalog)
  {
    if Bootstrap(rows, encode, serviceCurrency).Some? {
      BootstrapAddsOneAccount(rows, encode, serviceCurrency);
      var after := AfterSave(rows, Bootstrap(rows, encode, serviceCurrency));
      assert forall j :: 0 <= j < |after| ==> (j < |rows| && after[j] == rows[j]) || after[j].currency == serviceCurrency;
    }
  }

  class ApplicationStartup {
    const repository: Store
    /** The password encoder bean. */
    const encode: string -> string
    /** The service's default currency constant. */
    const serviceCurrency: Currency

    constructor (repository: Store, encode: string -> string, serviceCurrency: Currency)
      ensures this.repository == repository && this.encode == encode && this.serviceCurrency == serviceCurrency
    {
      this.repository := repository;
      this.encode := encode;
      this.serviceCurrency := serviceCurrency;
    }

    /** onApplicationEvent(ApplicationReadyEvent). The findAll pass only
        produces log lines: the store afterwards is a function of the store
        before it. */
    method OnApplicationEvent() returns (log: seq<LogLine>)
      modifies repository
      ensures repository.rows == AfterSave(old(repository.rows), Bootstrap(old(repository.rows), encode, serviceCurrency))
      ensures log == [UsersCount(|old(repository.rows)|)] + UserLines(old(repository.rows))
                     + match ExistingSuperuser(old(repository.rows))
                       case Some(u) => [SuperuserLine(u)]
                       case None => []
    {
      var users := repository.FindAll();
      log := [UsersCount(|users|)];
      for i := 0 to |users|
        invariant log == [UsersCount(|users|)] + UserLines(users[..i])
      {
        assert users[..i + 1][..i] == users[..i];
        log := log + [UserLine(users[i])];
      }
      assert users[..|users|] == users;

      var superuser := repository.FindById(SUPERUSER_ID);
      if superuser.Some? {
        log := log + [SuperuserLine(superuser.value)];
        return;
      }

      var optSuperUser := repository.FindOneByEmail(ADMIN_EMAIL);
      if optSuperUser.Some? {
        log := log + [SuperuserLine(optSuperUser.value)];
        return;
      }

      var admin := Account(SUPERUSER_ID, ADMIN_EMAIL, "", serviceCurrency);
      var password := encode(ADMIN_PASSWORD);
      admin := admin.(password := password);
      var _ := repository.Save(admin);
    }
  }
}
