/**
 The decisions the account handlers of api/account.go make. Each handler is a
 pure function of the bound request, the authenticated username and the store
 (a total function from the query's arguments to its outcome). It returns the
 query it issues, if any, and the reply it renders.
 */
module Api {
  import opened Ints
  import opened Outcomes
  import opened Currency
  import opened Db

  /** The HTTP statuses the handlers answer with: 200, 400, 403, 404 and 500. */
  datatype Status = OK | BadRequest | Forbidden | NotFound | InternalServerError

  /** A rendered reply: a status and, for 200 only, the JSON body; error bodies carry just a message. */
  datatype Reply<T> = Reply(status: Status, body: Option<T>)

  /** A request parameter as decoded from the wire, before its binding tags are checked. */
  datatype Param<T> = Parsed(value: T) | Unparsable

  /** What a handler did: the store query it issued (None: the store was never called) and its reply. */
  datatype Handled<Q, T> = Handled(query: Option<Q>, reply: Reply<T>)

  const MinPageSize: int32 := 5
  const MaxPageSize: int32 := 10

  /** The largest page_id whose offset fits in int32 at the largest page size: (214748365 - 1) * 10 <= MaxInt32. */
  const MaxPageId: int32 := 214748365

  /** `binding:"required,currency"`: `required` refuses the empty string, the `currency` validator the rest;
      together they admit exactly the supported codes. */
  predicate CurrencyBinds(currency: Param<string>): (ok: bool)
    ensures ok <==> currency.Parsed? && currency.value in Supported
  {
    currency.Parsed? && currency.value != "" && IsCurrencySupported(currency.value)
  }

  /** `binding:"required,min=1"` on the account ID: `required` refuses 0, `min=1` everything below 1. */
  predicate IdBinds(id: Param<int64>): (ok: bool)
    ensures ok <==> id.Parsed? && id.value > 0
  {
    id.Parsed? && id.value != 0 && id.value >= 1
  }

  /** `binding:"required,min=1"` on page_id and `binding:"required,min=5,max=10"` on page_size.
      page_id has no upper bound. */
  predicate PageBinds(pageId: Param<int32>, pageSize: Param<int32>): (ok: bool)
    ensures ok <==> pageId.Parsed? && pageSize.Parsed? && pageId.value > 0 && 5 <= pageSize.value <= 10
  {
    && pageId.Parsed? && pageId.value != 0 && pageId.value >= 1
    && pageSize.Parsed? && pageSize.value != 0 && MinPageSize <= pageSize.value <= MaxPageSize
  }

  /** PageBinds with an upper bound on page_id as well, `binding:"required,min=1,max=214748365"`. */
  predicate PageBindsBounded(pageId: Param<int32>, pageSize: Param<int32>): (ok: bool)
    ensures ok <==> PageBinds(pageId, pageSize) && pageId.value <= MaxPageId
    ensures ok ==> 0 <= (pageId.value as int - 1) * pageSize.value as int <= MaxInt32
  {
    var ok := PageBinds(pageId, pageSize) && pageId.value <= MaxPageId;
    if ok then
      MulMonotone(pageId.value as int - 1, MaxPageId as int - 1, pageSize.value as int, MaxPageSize as int);
      true
    else false
  }

  /** The reply to a failed create: 403 for a foreign-key or uniqueness violation, 500 otherwise. */
  function CreateFailureStatus(e: StoreError): (st: Status)
    ensures st == Forbidden <==> e.Pq? && (e.code == ForeignKeyViolation || e.code == UniqueViolation)
    ensures st != Forbidden ==> st == InternalServerError
  {
    if e.Pq? && (e.code == ForeignKeyViolation || e.code == UniqueViolation) then Forbidden
    else InternalServerError
  }

  /** POST /accounts. */
  function CreateAccount(currency: Param<string>, username: string,
                         store: CreateAccountParams -> Result<Account, StoreError>): (h: Handled<CreateAccountParams, Account>)
    ensures h.query.None? <==> !CurrencyBinds(currency)
    ensures h.query.None? ==> h.reply == Reply(BadRequest, None)
    ensures h.query.Some? ==> h.query.value == CreateAccountParams(username, 0, currency.value)
    ensures h.query.Some? && store(h.query.value).Success? ==> h.reply == Reply(OK, Some(store(h.query.value).value))
    ensures h.query.Some? && store(h.query.value).Failure? ==>
      h.reply.body.None? && h.reply.status == CreateFailureStatus(store(h.query.value).error)
  {
    if !CurrencyBinds(currency) then Handled(None, Reply(BadRequest, None))
    else
      var args := CreateAccountParams(username, 0, currency.value);
      match store(args)
      case Failure(e) => Handled(Some(args), Reply(CreateFailureStatus(e), None))
      case Success(a) => Handled(Some(args), Reply(OK, Some(a)))
  }

  /** GET /accounts/{id}: the lookup comes first, then the ownership check. */
  function GetAccount(id: Param<int64>, username: string,
                      store: int64 -> Result<Account, StoreError>): (h: Handled<int64, Account>)
    ensures h.query.None? <==> !IdBinds(id)
    ensures h.query.None? ==> h.reply == Reply(BadRequest, None)
    ensures h.query.Some? ==> h.query.value == id.value
    ensures h.reply.status == OK <==> h.query.Some? && store(id.value).Success? && store(id.value).value.owner == username
    ensures h.reply.status == OK ==> h.reply.body == Some(store(id.value).value)
    ensures h.query.Some? && store(id.value).Success? && store(id.value).value.owner != username ==>
      h.reply == Reply(BadRequest, None)
    ensures h.reply.status != OK ==> h.reply.body.None?
    ensures h.reply.status == NotFound <==> h.query.Some? && store(id.value) == Failure(NoRows)
    ensures h.reply.status == InternalServerError <==>
      h.query.Some? && store(id.value).Failure? && store(id.value).error != NoRows
  {
    if !IdBinds(id) then Handled(None, Reply(BadRequest, None))
    else
      match store(id.value)
      case Failure(e) =>
        if e == NoRows then Handled(Some(id.value), Reply(NotFound, None))
        else Handled(Some(id.value), Reply(InternalServerError, None))
      case Success(a) =>
        if a.owner != username then Handled(Some(id.value), Reply(BadRequest, None))
        else Handled(Some(id.value), Reply(OK, Some(a)))
  }

  /** The OFFSET the handler computes, `(page_id - 1) * page_size` in Go's int32 arithmetic: the true product
      while it fits, and always congruent to it modulo 2^32. */
  function PageOffset(pageId: int32, pageSize: int32): (offset: int32)
    ensures pageId >= 1 && MinInt32 <= (pageId as int - 1) * pageSize as int <= MaxInt32 ==>
      offset as int == (pageId as int - 1) * pageSize as int
    ensures ((pageId as int - 1) * pageSize as int - offset as int) % 0x1_0000_0000 == 0
  {
    var n := Sub32(pageId, 1);
    var offset := Mul32(n, pageSize);
    CongruentProduct(pageId as int - 1, n as int, pageSize as int, offset as int);
    offset
  }

  /** GET /accounts?page_id=&page_size=. */
  function ListAccounts(pageId: Param<int32>, pageSize: Param<int32>, username: string,
                        store: ListAccountsParams -> Result<seq<Account>, StoreError>): (h: Handled<ListAccountsParams, seq<Account>>)
    ensures h.query.None? <==> !PageBinds(pageId, pageSize)
    ensures h.query.None? ==> h.reply == Reply(BadRequest, None)
    ensures h.query.Some? ==>
      && h.query.value.owner == username
      && h.query.value.limit == pageSize.value
      && h.query.value.offset == PageOffset(pageId.value, pageSize.value)
    ensures h.query.Some? && store(h.query.value).Success? ==> h.reply == Reply(OK, Some(store(h.query.value).value))
    ensures h.query.Some? && store(h.query.value).Failure? ==> h.reply == Reply(InternalServerError, None)
  {
    if !PageBinds(pageId, pageSize) then Handled(None, Reply(BadRequest, None))
    else
      var args := ListAccountsParams(username, pageSize.value, PageOffset(pageId.value, pageSize.value));
      match store(args)
      case Failure(_) => Handled(Some(args), Reply(InternalServerError, None))
      case Success(accounts) => Handled(Some(args), Reply(OK, Some(accounts)))
  }

  /** GET /accounts with page_id bounded by MaxPageId: the same handler, with the offset always exact. */
  function ListAccountsBounded(pageId: Param<int32>, pageSize: Param<int32>, username: string,
                               store: ListAccountsParams -> Result<seq<Account>, StoreError>): (h: Handled<ListAccountsParams, seq<Account>>)
    ensures h.query.None? <==> !PageBindsBounded(pageId, pageSize)
    ensures h.query.None? ==> h.reply == Reply(BadRequest, None)
    ensures h.query.Some? ==>
      && h.query.value.owner == username
      && h.query.value.limit == pageSize.value
      && h.query.value.offset as int == (pageId.value as int - 1) * pageSize.value as int
      && h.query.value.offset >= 0
    ensures PageBindsBounded(pageId, pageSize) ==> h == ListAccounts(pageId, pageSize, username, store)
  {
    if !PageBindsBounded(pageId, pageSize) then Handled(None, Reply(BadRequest, None))
    else ListAccounts(pageId, pageSize, username, store)
  }
}
