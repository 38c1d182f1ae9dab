/** The account repository as an in-memory store: an ordered sequence of
    rows with lookup by id and by email, findAll, and save. Save stands for
    the repository's save, saveUser and saveAndFlush: a row whose id is 0 gets
    a fresh id, a row whose id is already stored replaces that row, any other
    row is appended. */
module AccountStore {
  import opened Accounts

  datatype Key = ById(id: int) | ByEmail(email: string)

  predicate Matches(a: Account, key: Key) {
    match key
    case ById(id) => a.id == id
    case ByEmail(email) => a.email == email
  }

  /** The position of the first row matching `key`, or -1 when none does. */
  function FirstIndex(rows: seq<Account>, key: Key): (k: int)
    ensures -1 <= k < |rows|
    ensures k == -1 <==> forall j :: 0 <= j < |rows| ==> !Matches(rows[j], key)
    ensures k >= 0 ==> Matches(rows[k], key)
    ensures k >= 0 ==> forall j :: 0 <= j < k ==> !Matches(rows[j], key)
  {
    FirstMatch(rows, (a: Account) => Matches(a, key))
  }

  /** findById / findOneByEmail: the first row matching `key`, if any. */
  function Lookup(rows: seq<Account>, key: Key): (r: Option<Account>)
    ensures r.None? <==> forall j :: 0 <= j < |rows| ==> !Matches(rows[j], key)
    ensures r.Some? ==> r.value in rows && Matches(r.value, key)
  {
    var k := FirstIndex(rows, key);
    if k == -1 then None else Some(rows[k])
  }

  predicate UniqueIds(rows: seq<Account>) {
    forall i, j :: 0 <= i < j < |rows| ==> rows[i].id != rows[j].id
  }

  predicate UniqueEmails(rows: seq<Account>) {
    forall i, j :: 0 <= i < j < |rows| ==> rows[i].email != rows[j].email
  }

  /** The store's own invariant: every row has been given a real id, and no
      two rows share one. */
  predicate ValidRows(rows: seq<Account>) {
    UniqueIds(rows) && forall j :: 0 <= j < |rows| ==> rows[j].id != 0
  }

  /** The account facts registration, update and bootstrap keep: the
      store's invariant, unique emails, and every stored currency from the
      catalog. */
  predicate AccountsInvariant(rows: seq<Account>, catalog: seq<Currency>) {
    && ValidRows(rows)
    && UniqueEmails(rows)
    && forall j :: 0 <= j < |rows| ==> rows[j].currency in catalog
  }

  function MaxId(rows: seq<Account>): (m: int)
    ensures m >= 0
    ensures forall j :: 0 <= j < |rows| ==> rows[j].id <= m
  {
    if |rows| == 0 then 0
    else
      var rest := MaxId(rows[1..]);
      if rows[0].id > rest then rows[0].id else rest
  }

  /** The row save writes: the account itself, given a fresh id when its id
      is 0. */
  function Persisted(rows: seq<Account>, a: Account): (p: Account)
    ensures p.id != 0
    ensures a.id != 0 ==> p == a
    ensures a.id == 0 ==> p == a.(id := p.id) && forall j :: 0 <= j < |rows| ==> rows[j].id != p.id
  {
    if a.id == 0 then a.(id := MaxId(rows) + 1) else a
  }

  /** The rows after save(a). */
  function Saved(rows: seq<Account>, a: Account): (r: seq<Account>)
    ensures Persisted(rows, a) in r
    ensures |rows| <= |r| <= |rows| + 1
    ensures forall j :: 0 <= j < |rows| && rows[j].id != Persisted(rows, a).id ==> r[j] == rows[j]
    ensures forall j :: 0 <= j < |r| ==> r[j] == Persisted(rows, a) || (j < |rows| && r[j] == rows[j])
  {
    var p := Persisted(rows, a);
    var k := FirstIndex(rows, ById(p.id));
    if k == -1 then rows + [p]
    else
      var r := seq(|rows|, j requires 0 <= j < |rows| => if rows[j].id == p.id then p else rows[j]);
      assert r[k] == p;
      r
  }

  /** The rows after a step that saves `save`, if anything. */
  function AfterSave(rows: seq<Account>, save: Option<Account>): seq<Account> {
    match save
    case None => rows
    case Some(a) => Saved(rows, a)
  }

  /** What save persists is found again, by its id and by its email. */
  lemma SavePersists(rows: seq<Account>, a: Account)
    ensures Lookup(Saved(rows, a), ById(Persisted(rows, a).id)) == Some(Persisted(rows, a))
    ensures Lookup(Saved(rows, a), ByEmail(a.email)).Some?
  {
    var p, r := Persisted(rows, a), Saved(rows, a);
    var k := FirstIndex(r, ById(p.id));
    assert r[k] == p;
    assert Matches(p, ByEmail(a.email));
  }

  /** Save keeps the store's invariant. */
  lemma SaveKeepsValid(rows: seq<Account>, a: Account)
    requires ValidRows(rows)
    ensures ValidRows(Saved(rows, a))
  {
    var p, r := Persisted(rows, a), Saved(rows, a);
    if FirstIndex(rows, ById(p.id)) == -1 {
      assert r == rows + [p];
    } else {
      forall i, j | 0 <= i < j < |r| ensures r[i].id != r[j].id {
        assert rows[i].id != rows[j].id;
      }
    }
  }

  /** Saving a row exactly as it is stored leaves the store as it was. */
  lemma SaveStoredRowIsNoop(rows: seq<Account>, k: nat)
    requires ValidRows(rows) && k < |rows|
    ensures Saved(rows, rows[k]) == rows
  {
    var a := rows[k];
    assert FirstIndex(rows, ById(a.id)) != -1 by {
      assert Matches(rows[k], ById(a.id));
    }
    var r := Saved(rows, a);
    forall j | 0 <= j < |rows| ensures r[j] == rows[j] {
      if j != k { assert rows[j].id != a.id; }
    }
  }

  /** Saving a change to the first row with email `e` that keeps its id and
      email: a later lookup by `e` finds the new row. */
  lemma SaveFoundRowIsFound(rows: seq<Account>, e: string, a: Account)
    requires ValidRows(rows)
    requires FirstIndex(rows, ByEmail(e)) >= 0
    requires a.id == rows[FirstIndex(rows, ByEmail(e))].id && a.email == e
    ensures Lookup(Saved(rows, a), ByEmail(e)) == Some(a)
  {
    var k := FirstIndex(rows, ByEmail(e));
    assert FirstIndex(rows, ById(a.id)) != -1 by {
      assert Matches(rows[k], ById(a.id));
    }
    var r := Saved(rows, a);
    assert |r| == |rows|;
    forall j | 0 <= j < |rows| && j != k ensures r[j] == rows[j] {
      assert rows[j].id != a.id;
    }
    assert FirstIndex(r, ByEmail(e)) == k by {
      assert r[k] == a;
      assert forall j :: 0 <= j < k ==> !Matches(r[j], ByEmail(e));
    }
  }

  /** Save keeps emails unique when no other row carries the saved email. */
  lemma SaveKeepsUniqueEmails(rows: seq<Account>, a: Account)
    requires ValidRows(rows) && UniqueEmails(rows)
    requires forall j :: 0 <= j < |rows| && rows[j].email == a.email ==> rows[j].id == Persisted(rows, a).id
    ensures UniqueEmails(Saved(rows, a))
  {
    var p, r := Persisted(rows, a), Saved(rows, a);
    forall i, j | 0 <= i < j < |r| ensures r[i].email != r[j].email {
      if r[i] == p {
        assert r[j] == rows[j];
      } else if r[j] == p {
        assert r[i] == rows[i];
      }
    }
  }

  class Store {
    var rows: seq<Account>

    predicate Valid()
      reads this
    {
      ValidRows(rows)
    }

    constructor ()
      ensures Valid() && rows == []
    {
      rows := [];
    }

    method FindById(id: int) returns (r: Option<Account>)
      ensures r == Lookup(rows, ById(id))
    {
      r := Lookup(rows, ById(id));
    }

    method FindOneByEmail(email: string) returns (r: Option<Account>)
      ensures r == Lookup(rows, ByEmail(email))
    {
      r := Lookup(rows, ByEmail(email));
    }

    method FindAll() returns (all: seq<Account>)
      ensures all == rows
    {
      all := rows;
    }

    method Save(a: Account) returns (saved: Account)
      modifies this
      ensures rows == Saved(old(rows), a)
      ensures saved == Persisted(old(rows), a)
      ensures old(Valid()) ==> Valid()
    {
      if Valid() { SaveKeepsValid(rows, a); }
      saved := Persisted(rows, a);
      rows := Saved(rows, a);
    }
  }
}
