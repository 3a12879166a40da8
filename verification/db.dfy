/**
 The account store, as the queries of db/sqlc behave and db/sqlc/account_test.go
 asserts: an immutable map from account ID to account plus the next value of the
 ID sequence.
 */
module Db {
  import opened Ints
  import opened Outcomes

  /** A creation time; the store stamps every row with a non-zero one. */
  type Timestamp = t: int | t > 0 witness 1

  datatype Account = Account(id: int64, owner: string, balance: int64, currency: string, createdAt: Timestamp)

  datatype CreateAccountParams = CreateAccountParams(owner: string, balance: int64, currency: string)
  datatype UpdateAccountParams = UpdateAccountParams(id: int64, balance: int64)
  datatype ListAccountsParams = ListAccountsParams(owner: string, limit: int32, offset: int32)

  /** What a query can fail with: no row, a PostgreSQL error known by its code name, or anything else. */
  datatype StoreError = NoRows | Pq(code: string) | Other

  const UniqueViolation: string := "unique_violation"
  const ForeignKeyViolation: string := "foreign_key_violation"
  const SequenceLimitExceeded: string := "sequence_generator_limit_exceeded"
  const InvalidLimit: string := "invalid_row_count_in_limit_clause"
  const InvalidOffset: string := "invalid_row_count_in_result_offset_clause"

  datatype StoreState = StoreState(accounts: map<int64, Account>, nextId: int)

  /** Every stored ID was handed out by the sequence (1 <= id < nextId) and is the row's own ID. */
  predicate WellFormed(s: StoreState)
  {
    && 1 <= s.nextId <= MaxInt64 + 1
    && forall k :: k in s.accounts ==> 1 <= k as int < s.nextId && s.accounts[k].id == k
  }

  type Store = s: StoreState | WellFormed(s) witness StoreState(map[], 1)

  /** INSERT ... RETURNING *: a fresh ID from the sequence, the given owner, balance and currency, stamped `now`. */
  function CreateAccount(s: Store, p: CreateAccountParams, now: Timestamp): (r: Result<(Store, Account), StoreError>)
    ensures r.Failure? <==> s.nextId > MaxInt64
    ensures r.Failure? ==> r.error == Pq(SequenceLimitExceeded)
    ensures r.Success? ==>
      var (s', a) := r.value;
      && a.owner == p.owner && a.balance == p.balance && a.currency == p.currency && a.createdAt == now
      && a.id != 0 && a.id !in s.accounts
      && a.id as int == s.nextId && s'.nextId == s.nextId + 1
      && a.id in s'.accounts && s'.accounts[a.id] == a
      && (forall k :: k != a.id ==> (k in s'.accounts <==> k in s.accounts))
      && (forall k :: k in s.accounts ==> s'.accounts[k] == s.accounts[k])
  {
    if s.nextId > MaxInt64 then Failure(Pq(SequenceLimitExceeded))
    else
      var id := s.nextId as int64;
      var a := Account(id, p.owner, p.balance, p.currency, now);
      var s': Store := StoreState(s.accounts[id := a], s.nextId + 1);
      Success((s', a))
  }

  /** SELECT by primary key: the row, or no rows. */
  function GetAccount(s: Store, id: int64): (r: Result<Account, StoreError>)
    ensures r.Success? <==> id in s.accounts
    ensures r.Success? ==> r.value == s.accounts[id] && r.value.id == id
    ensures r.Failure? ==> r.error == NoRows
  {
    if id in s.accounts then Success(s.accounts[id]) else Failure(NoRows)
  }

  /** UPDATE ... SET balance RETURNING *: sets the balance and nothing else. */
  function UpdateAccount(s: Store, p: UpdateAccountParams): (r: Result<(Store, Account), StoreError>)
    ensures r.Success? <==> p.id in s.accounts
    ensures r.Failure? ==> r.error == NoRows
    ensures r.Success? ==>
      var (s', a) := r.value;
      var before := s.accounts[p.id];
      && a.balance == p.balance
      && a.id == before.id == p.id && a.owner == before.owner && a.currency == before.currency
      && a.createdAt == before.createdAt
      && s'.accounts.Keys == s.accounts.Keys && s'.accounts[p.id] == a
      && (forall k :: k in s.accounts && k != p.id ==> s'.accounts[k] == s.accounts[k])
      && s'.nextId == s.nextId
  {
    if p.id !in s.accounts then Failure(NoRows)
    else
      var a := s.accounts[p.id].(balance := p.balance);
      var s': Store := s.(accounts := s.accounts[p.id := a]);
      Success((s', a))
  }

  /** DELETE by primary key: removes the row if present; never an error. IDs are not handed out again. */
  function DeleteAccount(s: Store, id: int64): (s': Store)
    ensures id !in s'.accounts
    ensures forall k :: k != id ==> (k in s'.accounts <==> k in s.accounts)
    ensures forall k :: k in s'.accounts ==> s'.accounts[k] == s.accounts[k]
    ensures s'.nextId == s.nextId
  {
    s.(accounts := s.accounts - {id})
  }

  /** The accounts of `owner` whose ID is at least `lo`, in ascending ID order. */
  function OwnedFrom(s: Store, owner: string, lo: int): (r: seq<Account>)
    requires 1 <= lo
    ensures forall i :: 0 <= i < |r| ==>
      && r[i].owner == owner && r[i].id in s.accounts && s.accounts[r[i].id] == r[i] && lo <= r[i].id as int
    ensures forall i, j :: 0 <= i < j < |r| ==> r[i].id < r[j].id
    decreases s.nextId - lo
  {
    if lo >= s.nextId then []
    else
      var id := lo as int64;
      var rest := OwnedFrom(s, owner, lo + 1);
      if id in s.accounts && s.accounts[id].owner == owner then [s.accounts[id]] + rest else rest
  }

  /** All accounts of `owner`, ordered by ID. */
  function Owned(s: Store, owner: string): (r: seq<Account>)
  {
    OwnedFrom(s, owner, 1)
  }

  /** The window [offset, offset + limit) of `owner`'s accounts ordered by ID, clipped to what exists. */
  function Page(all: seq<Account>, limit: nat, offset: nat): (r: seq<Account>)
    ensures |r| <= limit
    ensures offset <= |all| ==> r == all[offset..if offset + limit <= |all| then offset + limit else |all|]
    ensures offset >= |all| ==> r == []
  {
    var from := if offset <= |all| then offset else |all|;
    var to := if from + limit <= |all| then from + limit else |all|;
    all[from..to]
  }

  /** SELECT ... WHERE owner ORDER BY id LIMIT OFFSET. PostgreSQL refuses a negative OFFSET or LIMIT,
      checking OFFSET first. */
  function ListAccounts(s: Store, p: ListAccountsParams): (r: Result<seq<Account>, StoreError>)
    ensures r.Failure? <==> p.limit < 0 || p.offset < 0
    ensures p.offset < 0 ==> r == Failure(Pq(InvalidOffset))
    ensures p.offset >= 0 && p.limit < 0 ==> r == Failure(Pq(InvalidLimit))
    ensures r.Success? ==> r.value == Page(Owned(s, p.owner), p.limit as int, p.offset as int)
    ensures r.Success? ==> |r.value| <= p.limit as int
    ensures r.Success? ==> forall i :: 0 <= i < |r.value| ==>
      r.value[i].owner == p.owner && r.value[i].id in s.accounts && s.accounts[r.value[i].id] == r.value[i]
    ensures r.Success? ==> forall i, j :: 0 <= i < j < |r.value| ==> r.value[i].id < r.value[j].id
  {
    if p.offset < 0 then Failure(Pq(InvalidOffset))
    else if p.limit < 0 then Failure(Pq(InvalidLimit))
    else
      var all := Owned(s, p.owner);
      var page := Page(all, p.limit as int, p.offset as int);
      var from := if p.offset as int <= |all| then p.offset as int else |all|;
      assert forall i :: 0 <= i < |page| ==> from + i < |all| && page[i] == all[from + i];
      Success(page)
  }
}
