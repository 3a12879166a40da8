/** The account-store behaviour that db/sqlc/account_test.go asserts, proved of the Db model. */
module DbProperties {
  import opened Ints
  import opened Outcomes
  import opened Db

  /** Every account of `owner` with ID at least `lo` is listed by OwnedFrom. */
  lemma {:induction false} OwnedFromComplete(s: Store, owner: string, lo: int, k: int64)
    requires 1 <= lo <= k as int
    requires k in s.accounts && s.accounts[k].owner == owner
    ensures s.accounts[k] in OwnedFrom(s, owner, lo)
    decreases s.nextId - lo
  {
    if lo < k as int {
      OwnedFromComplete(s, owner, lo + 1, k);
    }
  }

  /** An account is listed among its owner's accounts exactly when it is stored with that owner. */
  lemma OwnedExactly(s: Store, owner: string, a: Account)
    ensures a in Owned(s, owner) <==> a.id in s.accounts && s.accounts[a.id] == a && a.owner == owner
  {
    if a.id in s.accounts && s.accounts[a.id] == a && a.owner == owner {
      OwnedFromComplete(s, owner, 1, a.id);
    }
  }

  /** createRandomAccount / TestGetAccount: a created account reads back with the same ID, owner, balance and currency. */
  lemma CreateThenGet(s: Store, p: CreateAccountParams, now: Timestamp)
    requires CreateAccount(s, p, now).Success?
    ensures
      var (s', a) := CreateAccount(s, p, now).value;
      && a.id != 0
      && GetAccount(s', a.id).Success?
      && GetAccount(s', a.id).value == Account(a.id, p.owner, p.balance, p.currency, now)
  {
  }

  /** TestUpdateAccount: updating a created account sets exactly the new balance; ID, owner, currency and creation time stay. */
  lemma CreateThenUpdate(s: Store, p: CreateAccountParams, now: Timestamp, balance: int64)
    requires CreateAccount(s, p, now).Success?
    ensures
      var (s1, a1) := CreateAccount(s, p, now).value;
      var u := UpdateAccount(s1, UpdateAccountParams(a1.id, balance));
      && u.Success?
      && u.value.1 == a1.(balance := balance)
      && GetAccount(u.value.0, a1.id) == Success(a1.(balance := balance))
  {
  }

  /** TestDeleteAccount: after a delete, reading the same ID reports no rows. */
  lemma DeleteThenGet(s: Store, id: int64)
    ensures GetAccount(DeleteAccount(s, id), id) == Failure(NoRows)
  {
  }

  /** A deleted ID is never handed out again by a later create. */
  lemma DeletedIdNotReused(s: Store, id: int64, p: CreateAccountParams, now: Timestamp)
    requires id in s.accounts
    ensures
      var r := CreateAccount(DeleteAccount(s, id), p, now);
      r.Success? ==> r.value.1.id != id
  {
  }

  /** Listing at offset 0 with a positive limit is non-empty as soon as the owner has an account. */
  lemma ListFirstPageNonEmpty(s: Store, owner: string, limit: int32, k: int64)
    requires 1 <= limit
    requires k in s.accounts && s.accounts[k].owner == owner
    ensures ListAccounts(s, ListAccountsParams(owner, limit, 0)).Success?
    ensures |ListAccounts(s, ListAccountsParams(owner, limit, 0)).value| >= 1
  {
    OwnedFromComplete(s, owner, 1, k);
  }

  /** TestListAccounts: after creating an account for `owner`, the first page of 5 is non-empty and holds only `owner`'s accounts. */
  lemma CreateThenList(s: Store, p: CreateAccountParams, now: Timestamp)
    requires CreateAccount(s, p, now).Success?
    ensures
      var (s', a) := CreateAccount(s, p, now).value;
      var r := ListAccounts(s', ListAccountsParams(p.owner, 5, 0));
      && r.Success? && |r.value| >= 1
      && forall i :: 0 <= i < |r.value| ==> r.value[i].owner == p.owner
  {
    var (s', a) := CreateAccount(s, p, now).value;
    ListFirstPageNonEmpty(s', p.owner, 5, a.id);
  }

  /** Two consecutive pages of `limit` rows are together the page of `2 * limit` rows at the first offset. */
  lemma ConsecutivePages(s: Store, owner: string, limit: int32, offset: int32)
    requires 0 <= limit && 0 <= offset
    requires offset as int + limit as int <= MaxInt32 && 2 * limit as int <= MaxInt32
    ensures
      var first := ListAccounts(s, ListAccountsParams(owner, limit, offset));
      var second := ListAccounts(s, ListAccountsParams(owner, limit, offset + limit));
      var both := ListAccounts(s, ListAccountsParams(owner, 2 * limit, offset));
      first.Success? && second.Success? && both.Success? && first.value + second.value == both.value
  {
  }
}
