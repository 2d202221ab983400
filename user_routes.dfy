/** The create-user route (`POST /`) as a specification: `Handle` states
    what one request does to the contents of the users file, which outcome
    it answers with and which file operations it performs. The handler
    itself, over the file as mutable state, is `UsersStore.UsersFile.Post`. */
module UserRoutes {
  import opened Js
  import Bcrypt

  /** What the route answers: 400, 409, 201 with the created user, or 500. */
  datatype Outcome = BadRequest | Conflict | Created(usuario: JsObject) | InternalError

  /** One operation on the users file. */
  datatype FileOp = ReadFile | WriteFile(contents: seq<JsObject>)

  /** Everything a request may depend on beyond the body and the file:
      whether the read and parse of the file succeed, the salt and digest of
      the password hash, the two clock readings (as
      `toLocaleDateString` renders them) and whether the write succeeds. */
  datatype Env = Env(
    readOk: bool,
    salt: Bcrypt.Salt,
    digest: (string, Bcrypt.Salt) -> Bcrypt.Digest,
    createdAt: string,
    updatedAt: string,
    writeOk: bool)

  /** The outcome of a request, the file contents after it, and the file
      operations it performed, in order. The history records every read
      attempted, failed or not, but only a write that took effect: a failed
      write leaves no entry. */
  datatype Step = Step(outcome: Outcome, users: seq<JsObject>, io: seq<FileOp>)

  /** The JSON answer sent for an outcome. */
  datatype ResponseBody = ErrorBody(erro: string) | CreatedBody(mensagem: string, usuario: JsObject)
  datatype Response = Response(status: nat, body: ResponseBody)

  const MissingFieldsMessage := "Nome, E-mail e Senha são obrigatórios"
  const DuplicateEmailMessage := "E-mail já cadastrado"
  const CreatedMessage := "Usuário cadastrado com sucesso!"
  const FailureMessage := "Erro ao criar usuário."

  /** The name the record's `id` property refers to: the generator itself,
      never a value it generated. */
  const IdGenerator := "uuidv4"

  /** The three required properties are all truthy. */
  predicate HasRequiredFields(body: JsObject): (b: bool)
    ensures b ==> "nome" in body && "email" in body && "senha" in body
    ensures b ==> body["email"] != Null && body["senha"] != Str("")
  {
    Truthy(Get(body, "nome")) && Truthy(Get(body, "email")) && Truthy(Get(body, "senha"))
  }

  /** `users.find((user) => user.email === email)`, as the index of the first
      record it finds. */
  function FindByEmail(users: seq<JsObject>, email: JsValue): (r: Option<nat>)
    ensures r.Some? ==> r.value < |users| && StrictEquals(Get(users[r.value], "email"), email)
    ensures r.Some? ==> forall k :: 0 <= k < r.value ==> !StrictEquals(Get(users[k], "email"), email)
    ensures r.None? <==> forall k :: 0 <= k < |users| ==> !StrictEquals(Get(users[k], "email"), email)
  {
    if |users| == 0 then None
    else if StrictEquals(Get(users[0], "email"), email) then Some(0)
    else
      match FindByEmail(users[1..], email)
      case None => None
      case Some(i) => Some(i + 1)
  }

  /** The record the route builds in memory, before it is serialised. */
  function NewUser(nome: JsValue, email: JsValue, hashed: string, env: Env): (r: JsObject)
    ensures r.Keys == {"id", "name", "email", "password", "createdAt", "updatedAt"}
    ensures "senha" !in r
    ensures !IsParsed(r["id"])
    ensures r["password"] == Str(hashed)
  {
    map[
      "id" := FunctionRef(IdGenerator),
      "name" := nome,
      "email" := email,
      "password" := Str(hashed),
      "createdAt" := Str(env.createdAt),
      "updatedAt" := Str(env.updatedAt)
    ]
  }

  /** What one request does to the file `users` holds. The hash rejects a
      password that is not a string, which the route reports as a 500. The
      write serialises the whole array again, earlier records included. */
  function Handle(users: seq<JsObject>, body: JsObject, env: Env): (r: Step)
    ensures r.outcome.Created? || r.users == users
    ensures |r.users| == |users| + (if r.outcome.Created? then 1 else 0)
    ensures r.io == [] <==> r.outcome == BadRequest
  {
    if !HasRequiredFields(body) then Step(BadRequest, users, [])
    else if !env.readOk then Step(InternalError, users, [ReadFile])
    else if FindByEmail(users, Get(body, "email")).Some? then Step(Conflict, users, [ReadFile])
    else if !Get(body, "senha").Str? then Step(InternalError, users, [ReadFile])
    else
      var record := NewUser(Get(body, "nome"), Get(body, "email"),
                            Bcrypt.Hash(env.digest, Get(body, "senha").s, env.salt), env);
      var saved := StringifyAll(users) + [Stringify(record)];
      if !env.writeOk then Step(InternalError, users, [ReadFile])
      else Step(Created(Stringify(Omit(record, "senha"))), saved, [ReadFile, WriteFile(saved)])
  }

  /** The status code and JSON body sent back for an outcome. */
  function Respond(o: Outcome): (r: Response)
    ensures r.status == 201 <==> o.Created?
    ensures r.body.CreatedBody? <==> o.Created?
    ensures o.Created? ==> r.body.usuario == o.usuario
    ensures 400 <= r.status < 500 <==> o.BadRequest? || o.Conflict?
    ensures r.status == 400 <==> o.BadRequest?
    ensures r.status == 409 <==> o.Conflict?
    ensures r.status == 500 <==> o.InternalError?
  {
    match o
    case BadRequest => Response(400, ErrorBody(MissingFieldsMessage))
    case Conflict => Response(409, ErrorBody(DuplicateEmailMessage))
    case Created(u) => Response(201, CreatedBody(CreatedMessage, u))
    case InternalError => Response(500, ErrorBody(FailureMessage))
  }

  /** The file holds only what `JSON.stringify` writes out as itself. */
  predicate AllJson(users: seq<JsObject>) {
    forall i :: 0 <= i < |users| ==> IsJsonObject(users[i])
  }

  /** No two records share an email under `===`. */
  predicate DistinctEmails(users: seq<JsObject>) {
    forall i, j :: 0 <= i < j < |users| ==> !StrictEquals(Get(users[i], "email"), Get(users[j], "email"))
  }

  /** The number of records whose email is `=== email`. */
  function CountEmail(users: seq<JsObject>, email: JsValue): nat {
    if |users| == 0 then 0
    else CountEmail(users[..|users| - 1], email)
         + (if StrictEquals(Get(users[|users| - 1], "email"), email) then 1 else 0)
  }

  /** The number of writes in a history of file operations. */
  function WriteCount(io: seq<FileOp>): nat {
    if |io| == 0 then 0
    else WriteCount(io[..|io| - 1]) + (if io[|io| - 1].WriteFile? then 1 else 0)
  }
}
