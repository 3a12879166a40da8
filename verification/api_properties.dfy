/**
 Properties of the account handlers: the pagination arithmetic, and what the
 handlers reply when their store is the Db model.
 */
module ApiProperties {
  import opened Ints
  import opened Outcomes
  import opened Currency
  import opened Db
  import Api

  /** The Db model seen through the handler's create call, with the row stamped `now`. */
  function StoreCreate(s: Store, now: Timestamp): (store: CreateAccountParams -> Result<Account, StoreError>)
  {
    p => match Db.CreateAccount(s, p, now)
         case Success((_, a)) => Success(a)
         case Failure(e) => Failure(e)
  }

  /** The Db model seen through the handler's lookup call. */
  function StoreGet(s: Store): (store: int64 -> Result<Account, StoreError>)
  {
    id => Db.GetAccount(s, id)
  }

  /** The Db model seen through the handler's listing call. */
  function StoreList(s: Store): (store: ListAccountsParams -> Result<seq<Account>, StoreError>)
  {
    p => Db.ListAccounts(s, p)
  }

  /** Within int32 range the offset is exactly (page_id - 1) * page_size: non-negative and a multiple of page_size. */
  lemma OffsetExact(pageId: int32, pageSize: int32)
    requires 1 <= pageId && 1 <= pageSize
    requires (pageId as int - 1) * pageSize as int <= MaxInt32
    ensures Api.PageOffset(pageId, pageSize) as int == (pageId as int - 1) * pageSize as int
    ensures Api.PageOffset(pageId, pageSize) >= 0
    ensures Api.PageOffset(pageId, pageSize) as int % pageSize as int == 0
  {
    var n := pageId as int - 1;
    var d := pageSize as int;
    assert Sub32(pageId, 1) as int == n;
    assert 0 <= n * d by {
      assert 0 <= n && 0 <= d;
    }
    assert Api.PageOffset(pageId, pageSize) == Wrap32(n * d);
    MultipleMod(n, d);
  }

  /** For a page that passed binding, the offset is the true product exactly when the product fits in int32. */
  lemma OffsetExactIffFits(pageId: int32, pageSize: int32)
    requires 1 <= pageId && Api.MinPageSize <= pageSize <= Api.MaxPageSize
    ensures Api.PageOffset(pageId, pageSize) as int == (pageId as int - 1) * pageSize as int
      <==> (pageId as int - 1) * pageSize as int <= MaxInt32
  {
  }

  /** Consecutive pages start page_size rows apart while the offsets fit in int32. */
  lemma ConsecutiveOffsets(pageId: int32, pageSize: int32)
    requires 1 <= pageId < 0x7fff_ffff && 1 <= pageSize
    requires pageId as int * pageSize as int <= MaxInt32
    ensures Api.PageOffset(pageId + 1, pageSize) as int == Api.PageOffset(pageId, pageSize) as int + pageSize as int
  {
    assert (pageId as int - 1) * pageSize as int + pageSize as int == pageId as int * pageSize as int;
    OffsetExact(pageId, pageSize);
    OffsetExact(pageId + 1, pageSize);
  }

  /** Distinct pages of the same size cover disjoint ranges of rows while their offsets fit in int32. */
  lemma PagesDisjoint(p1: int32, p2: int32, pageSize: int32)
    requires 1 <= p1 && 1 <= p2 && p1 != p2 && 1 <= pageSize
    requires (p1 as int - 1) * pageSize as int <= MaxInt32 && (p2 as int - 1) * pageSize as int <= MaxInt32
    ensures
      var o1, o2 := Api.PageOffset(p1, pageSize) as int, Api.PageOffset(p2, pageSize) as int;
      o1 + pageSize as int <= o2 || o2 + pageSize as int <= o1
  {
    OffsetExact(p1, pageSize);
    OffsetExact(p2, pageSize);
    if p1 < p2 {
      ProductStep(p1 as int - 1, p2 as int - 1, pageSize as int);
    } else {
      ProductStep(p2 as int - 1, p1 as int - 1, pageSize as int);
    }
  }

  /** page_id has no upper bound: page_id = MaxInt32 with page_size = 10 wraps the offset to -20. */
  lemma OffsetOverflow()
    ensures Api.PageBinds(Api.Parsed(0x7fff_ffff), Api.Parsed(10))
    ensures Api.PageOffset(0x7fff_ffff, 10) == -20
  {
  }

  /** POST /accounts on the Db model: 200 exactly when the currency binds and an ID is left; the new account is
      the user's, holds balance 0, is in a supported three-letter currency and has a fresh ID. */
  lemma CreateAccountOnStore(s: Store, currency: Api.Param<string>, username: string, now: Timestamp)
    ensures
      var h := Api.CreateAccount(currency, username, StoreCreate(s, now));
      && (h.reply.status == Api.OK <==> Api.CurrencyBinds(currency) && s.nextId <= MaxInt64)
      && (h.reply.status == Api.OK ==>
            var a := h.reply.body.value;
            && a.owner == username && a.balance == 0 && a.currency == currency.value
            && IsCurrencySupported(a.currency) && IsUpperCode(a.currency)
            && a.id !in s.accounts)
      && (Api.CurrencyBinds(currency) && s.nextId > MaxInt64 ==> h.reply.status == Api.InternalServerError)
  {
  }

  /** GET /accounts/{id} on the Db model: the account is returned exactly when it exists and belongs to the caller;
      a missing ID is 404 whoever asks, and someone else's account is 400 with no body. */
  lemma GetAccountOnStore(s: Store, id: Api.Param<int64>, username: string)
    ensures
      var h := Api.GetAccount(id, username, StoreGet(s));
      && (h.reply.status == Api.OK <==> id.Parsed? && id.value in s.accounts && s.accounts[id.value].owner == username)
      && (h.reply.status == Api.OK ==> h.reply.body == Some(s.accounts[id.value]))
      && (Api.IdBinds(id) && id.value !in s.accounts ==> h.reply == Api.Reply(Api.NotFound, None))
      && (id.Parsed? && id.value in s.accounts && s.accounts[id.value].owner != username ==>
            h.reply == Api.Reply(Api.BadRequest, None))
      && h.reply.status != Api.InternalServerError
  {
  }

  /** A user who created an account through the API reads it back through the API; anyone else gets 400. */
  lemma CreateThenGetViaApi(s: Store, currency: Api.Param<string>, username: string, other: string, now: Timestamp)
    requires Api.CurrencyBinds(currency) && s.nextId <= MaxInt64
    requires other != username
    ensures
      var (s', a) := Db.CreateAccount(s, CreateAccountParams(username, 0, currency.value), now).value;
      && Api.CreateAccount(currency, username, StoreCreate(s, now)).reply == Api.Reply(Api.OK, Some(a))
      && Api.GetAccount(Api.Parsed(a.id), username, StoreGet(s')).reply == Api.Reply(Api.OK, Some(a))
      && Api.GetAccount(Api.Parsed(a.id), other, StoreGet(s')).reply == Api.Reply(Api.BadRequest, None)
  {
  }

  /** GET /accounts on the Db model: every listed account is the caller's, at most page_size of them; while the
      offset fits in int32 the reply is 200 with the window of the caller's accounts ordered by ID. */
  lemma ListAccountsOnStore(s: Store, pageId: Api.Param<int32>, pageSize: Api.Param<int32>, username: string)
    ensures
      var h := Api.ListAccounts(pageId, pageSize, username, StoreList(s));
      && (h.reply.status == Api.OK ==>
            && |h.reply.body.value| <= pageSize.value as int
            && forall i :: 0 <= i < |h.reply.body.value| ==> h.reply.body.value[i].owner == username)
      && (Api.PageBinds(pageId, pageSize) && (pageId.value as int - 1) * pageSize.value as int <= MaxInt32 ==>
            h.reply == Api.Reply(Api.OK, Some(Page(Owned(s, username), pageSize.value as int,
                                                    (pageId.value as int - 1) * pageSize.value as int))))
  {
  }

  /** A request that passes binding but whose offset wraps negative reaches the store and comes back 500. */
  lemma ListOverflowIsServerError(s: Store, username: string)
    ensures Api.ListAccounts(Api.Parsed(0x7fff_ffff), Api.Parsed(10), username, StoreList(s)).reply
      == Api.Reply(Api.InternalServerError, None)
  {
  }

  /** page_id = 536870913 with page_size = 8 passes binding, but (page_id - 1) * 8 = 2^32 wraps to offset 0:
      whatever the store holds, the reply is page 1's reply. */
  lemma OffsetWrapsToFirstPage(username: string, store: ListAccountsParams -> Result<seq<Account>, StoreError>)
    ensures Api.PageBinds(Api.Parsed(536870913), Api.Parsed(8))
    ensures Api.PageOffset(536870913, 8) == 0 == Api.PageOffset(1, 8)
    ensures Api.ListAccounts(Api.Parsed(536870913), Api.Parsed(8), username, store)
         == Api.ListAccounts(Api.Parsed(1), Api.Parsed(8), username, store)
  {
  }

  /** The bounded binding still admits ordinary pages and refuses exactly those past MaxPageId. */
  lemma BoundedBindingAdmits()
    ensures Api.PageBindsBounded(Api.Parsed(1), Api.Parsed(5))
    ensures Api.PageBindsBounded(Api.Parsed(214748365), Api.Parsed(10))
    ensures !Api.PageBindsBounded(Api.Parsed(214748366), Api.Parsed(5))
    ensures !Api.PageBindsBounded(Api.Parsed(536870913), Api.Parsed(8))
  {
  }

  /** With page_id bounded, every two distinct pages a request may ask for cover disjoint ranges of rows. */
  lemma BoundedPagesDisjoint(p1: Api.Param<int32>, p2: Api.Param<int32>, pageSize: Api.Param<int32>, username: string,
                             store: ListAccountsParams -> Result<seq<Account>, StoreError>)
    requires Api.PageBindsBounded(p1, pageSize) && Api.PageBindsBounded(p2, pageSize)
    requires p1.value != p2.value
    ensures
      var o1 := Api.ListAccountsBounded(p1, pageSize, username, store).query.value.offset as int;
      var o2 := Api.ListAccountsBounded(p2, pageSize, username, store).query.value.offset as int;
      o1 + pageSize.value as int <= o2 || o2 + pageSize.value as int <= o1
  {
    PagesDisjoint(p1.value, p2.value, pageSize.value);
  }

  /** With page_id bounded, every request that passes binding is answered 200 by the Db model, with the window of
      the caller's accounts that starts at (page_id - 1) * page_size. */
  lemma BoundedListOnStore(s: Store, pageId: Api.Param<int32>, pageSize: Api.Param<int32>, username: string)
    requires Api.PageBindsBounded(pageId, pageSize)
    ensures Api.ListAccountsBounded(pageId, pageSize, username, StoreList(s)).reply
      == Api.Reply(Api.OK, Some(Page(Owned(s, username), pageSize.value as int,
                                     (pageId.value as int - 1) * pageSize.value as int)))
  {
    ListAccountsOnStore(s, pageId, pageSize, username);
  }
}
