/**
 The decisions of the CreateUser RPC (gapi/rpc_create_user.go): hash the
 password, build the store arguments, map the store's error to a gRPC code.
 Password hashing, the store and the conversion to the wire message are
 parameters: they are not part of this model.
 */
module Gapi {
  import opened Outcomes
  import opened Db
  import Api

  datatype CreateUserRequest = CreateUserRequest(username: string, fullName: string, email: string, password: string)
  datatype CreateUserParams = CreateUserParams(username: string, hashedPassword: string, fullName: string, email: string)
  datatype User = User(username: string, hashedPassword: string, fullName: string, email: string,
                       passwordChangedAt: Timestamp, createdAt: Timestamp)

  /** What hashing the password produced: a digest, or a failure. */
  datatype HashOutcome = Hashed(digest: string) | HashFailed

  /** The gRPC status codes this RPC can return besides OK. */
  datatype Code = AlreadyExists | Internal

  datatype CreateUserResponse<U> = CreateUserResponse(user: U)
  datatype RpcResult<U> = Response(response: CreateUserResponse<U>) | StatusError(code: Code)

  /** What the RPC did: the store call it made (None: never called) and what it returned. */
  datatype Call<U> = Call(query: Option<CreateUserParams>, result: RpcResult<U>)

  /** AlreadyExists for a uniqueness violation only; every other failure is Internal. */
  function CreateUserFailureCode(e: StoreError): (c: Code)
    ensures c == AlreadyExists <==> e == Pq(UniqueViolation)
  {
    if e.Pq? && e.code == UniqueViolation then AlreadyExists else Internal
  }

  function CreateUser<U>(req: CreateUserRequest, hash: string -> HashOutcome,
                         store: CreateUserParams -> Result<User, StoreError>, convert: User -> U): (c: Call<U>)
    ensures c.query.None? <==> hash(req.password).HashFailed?
    ensures c.query.None? ==> c.result == StatusError(Internal)
    ensures c.query.Some? ==>
      c.query.value == CreateUserParams(req.username, hash(req.password).digest, req.fullName, req.email)
    ensures c.result == StatusError(AlreadyExists) <==> c.query.Some? && store(c.query.value) == Failure(Pq(UniqueViolation))
    ensures c.result.Response? <==> c.query.Some? && store(c.query.value).Success?
    ensures c.result.Response? ==> c.result.response.user == convert(store(c.query.value).value)
  {
    match hash(req.password)
    case HashFailed => Call(None, StatusError(Internal))
    case Hashed(digest) =>
      var args := CreateUserParams(req.username, digest, req.fullName, req.email);
      match store(args)
      case Failure(e) => Call(Some(args), StatusError(CreateUserFailureCode(e)))
      case Success(user) => Call(Some(args), Response(CreateUserResponse(convert(user))))
  }

  /** When the hash never returns its input unchanged, the store never sees the plaintext password: a corollary
      of CreateUser sending the digest as the hashed password. */
  lemma PlaintextNeverStored<U>(req: CreateUserRequest, hash: string -> HashOutcome,
                                store: CreateUserParams -> Result<User, StoreError>, convert: User -> U)
    requires forall p :: hash(p).Hashed? ==> hash(p).digest != p
    ensures
      var c := CreateUser(req, hash, store, convert);
      c.query.Some? ==> c.query.value.hashedPassword != req.password
  {
  }

  /** A hashing failure decides the result on its own: the store's behaviour does not matter. */
  lemma HashFailureIgnoresStore<U>(req: CreateUserRequest, hash: string -> HashOutcome,
                                   store1: CreateUserParams -> Result<User, StoreError>,
                                   store2: CreateUserParams -> Result<User, StoreError>, convert: User -> U)
    requires hash(req.password).HashFailed?
    ensures CreateUser(req, hash, store1, convert) == CreateUser(req, hash, store2, convert)
  {
  }

  /** The RPC and the HTTP create-account handler map store errors differently: both treat a uniqueness
      violation as a conflict, but a foreign-key violation is 403 over HTTP and Internal over RPC, and
      every error that is 500 over HTTP is Internal over RPC. */
  lemma ErrorMappingsDiffer(e: StoreError)
    ensures CreateUserFailureCode(e) == AlreadyExists ==> Api.CreateFailureStatus(e) == Api.Forbidden
    ensures Api.CreateFailureStatus(e) == Api.InternalServerError ==> CreateUserFailureCode(e) == Internal
    ensures e == Pq(ForeignKeyViolation) ==>
      Api.CreateFailureStatus(e) == Api.Forbidden && CreateUserFailureCode(e) == Internal
  {
  }
}
