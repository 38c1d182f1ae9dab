/** The account data model of the user service: the persisted account, the
    request shapes the controller receives, its responses, and the currency
    catalog with its lookup by code. */
module Accounts {

  datatype Option<T> = None | Some(value: T)

  /** A currency of the catalog, identified by its symbolic name. The enum's
      constants are not part of this model, so the catalog is a parameter. */
  datatype Currency = Currency(name: string)

  /** A persisted account: after registration or bootstrap, email, password
      and currency are always present. */
  datatype Account = Account(id: int, email: string, password: string, currency: Currency)

  /** The JSON body of a registration request; every reference field may be
      null in the request. */
  datatype UserBody = UserBody(id: int, email: Option<string>, password: Option<string>,
                               defaultCurrency: Option<Currency>)

  /** The profile shape read and written by the controller: only the name of
      the default currency. */
  datatype UserInfo = UserInfo(defaultCurrency: Option<string>)

  const OK: int := 200
  const BAD_REQUEST: int := 400
  const CONFLICT: int := 409
  const INTERNAL_SERVER_ERROR: int := 500

  /** What an endpoint answers: a generic status/message body, a profile body,
      or the registration exception, which the framework turns into a 400. */
  datatype Response =
    | Generic(status: int, message: string)
    | Info(info: UserInfo)
    | RegistrationBadRequest

  /** The first-match search shared by the catalog and the store: the
      position of the first element satisfying `p`, or -1 when none does. */
  function FirstMatch<T>(s: seq<T>, p: T -> bool): (k: int)
    ensures -1 <= k < |s|
    ensures k == -1 <==> forall j :: 0 <= j < |s| ==> !p(s[j])
    ensures k >= 0 ==> p(s[k])
    ensures k >= 0 ==> forall j :: 0 <= j < k ==> !p(s[j])
  {
    if |s| == 0 then -1
    else if p(s[0]) then 0
    else
      var rest := FirstMatch(s[1..], p);
      if rest == -1 then -1 else rest + 1
  }

  /** Currency.getCurrencyId: the position of the first catalog entry whose
      name is `code`, or -1 when there is none. */
  function CurrencyId(catalog: seq<Currency>, code: string): (id: int)
    ensures -1 <= id < |catalog|
    ensures id == -1 <==> forall j :: 0 <= j < |catalog| ==> catalog[j].name != code
    ensures id >= 0 ==> catalog[id].name == code
    ensures id >= 0 ==> forall j :: 0 <= j < id ==> catalog[j].name != code
  {
    FirstMatch(catalog, (c: Currency) => c.name == code)
  }

  /** Currency.valueOf, called only on a code the catalog knows. */
  function ValueOf(catalog: seq<Currency>, code: string): (c: Currency)
    requires CurrencyId(catalog, code) != -1
    ensures c in catalog && c.name == code
  {
    catalog[CurrencyId(catalog, code)]
  }
}
