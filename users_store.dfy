/** The users file as mutable state, and the route's handler over it.

    `users` is what the file holds, as `JSON.parse` gives it back, and `io`
    is the history of the file operations performed so far. `Post` performs
    one request step by step, with the handler's early returns, and is
    proved to do what `UserRoutes.Handle` specifies. */
module UsersStore {
  import opened Js
  import opened UserRoutes
  import opened UserRoutesProperties
  import Bcrypt

  class UsersFile {
    var users: seq<JsObject>
    var io: seq<FileOp>

    /** The file holds what `JSON.stringify` wrote: values it writes out as
        themselves, so serialising the array again leaves it unchanged. */
    ghost predicate Valid()
      reads this
    {
      AllJson(users)
    }

    /** Module load: a missing file is created holding `[]`; a present one
        is left as it is. */
    constructor (existing: Option<seq<JsObject>>)
      requires existing.Some? ==> AllJson(existing.value)
      ensures Valid()
      ensures existing.None? ==> users == [] && io == [WriteFile([])]
      ensures existing.Some? ==> users == existing.value && io == []
    {
      if existing.None? {
        users := [];
        io := [WriteFile([])];
      } else {
        users := existing.value;
        io := [];
      }
    }

    /** The route's handler, with its early returns. */
    method Post(body: JsObject, env: Env) returns (outcome: Outcome)
      requires Valid()
      modifies this
      ensures Valid()
      ensures outcome == Handle(old(users), body, env).outcome
      ensures users == Handle(old(users), body, env).users
      ensures io == old(io) + Handle(old(users), body, env).io
      ensures !outcome.Created? ==> users == old(users) && WriteCount(io) == WriteCount(old(io))
      ensures outcome.Created? ==>
        users == old(users) + [outcome.usuario] && WriteCount(io) == WriteCount(old(io)) + 1
      ensures outcome == BadRequest <==> !HasRequiredFields(body)
      ensures outcome == BadRequest ==> io == old(io)
      ensures IsParsedObject(body) && DistinctEmails(old(users)) && !Get(body, "email").NonFinite? ==>
        DistinctEmails(users)
    {
      PostSummary(io, users, body, env);
      if !HasRequiredFields(body) {
        return BadRequest;
      }
      io := io + [ReadFile];
      if !env.readOk {
        return InternalError;
      }
      var loaded := users;
      var isEmail := FindByEmail(loaded, Get(body, "email"));
      if isEmail.Some? {
        return Conflict;
      }
      var senha := Get(body, "senha");
      if !senha.Str? {
        return InternalError;
      }
      var hashedPassword := Bcrypt.Hash(env.digest, senha.s, env.salt);
      var newUser := NewUser(Get(body, "nome"), Get(body, "email"), hashedPassword, env);
      loaded := loaded + [newUser];
      var written := StringifyAll(loaded);
      if !env.writeOk {
        return InternalError;
      }
      StringifyAllAppend(old(users), newUser);
      users := written;
      AppendTwice(old(io), ReadFile, WriteFile(written));
      io := io + [WriteFile(written)];
      var userWithoutPassword := Omit(newUser, "senha");
      outcome := Created(Stringify(userWithoutPassword));
    }
  }

  /** What the history and the file of one request amount to: one more
      write on a 201 and none otherwise, the answered record appended to a
      file of JSON values, no file operation on a 400, and distinct finite
      emails kept distinct. */
  lemma PostSummary(before: seq<FileOp>, users: seq<JsObject>, body: JsObject, env: Env)
    requires AllJson(users)
    ensures var step := Handle(users, body, env);
      && AllJson(step.users)
      && (!step.outcome.Created? ==> step.users == users && WriteCount(before + step.io) == WriteCount(before))
      && (step.outcome.Created? ==>
            step.users == users + [step.outcome.usuario] && WriteCount(before + step.io) == WriteCount(before) + 1)
      && (step.outcome == BadRequest <==> !HasRequiredFields(body))
      && (step.outcome == BadRequest ==> step.io == [])
      && (IsParsedObject(body) && DistinctEmails(users) && !Get(body, "email").NonFinite? ==>
            DistinctEmails(step.users))
  {
    var step := Handle(users, body, env);
    WrittenExactlyOnceOnSuccess(users, body, env);
    WriteCountAppend(before, step.io);
    if step.outcome.Created? {
      SuccessAppendsTheAnsweredRecord(users, body, env);
      AllJsonAppend(users, step.outcome.usuario);
    }
    if IsParsedObject(body) && DistinctEmails(users) {
      DistinctEmailsPreserved(users, body, env);
    }
  }

  /** Appending a JSON object to a file of JSON objects keeps it one. */
  lemma AllJsonAppend(users: seq<JsObject>, u: JsObject)
    requires AllJson(users) && IsJsonObject(u)
    ensures AllJson(users + [u])
  {
    var s := users + [u];
    forall i | 0 <= i < |s|
      ensures IsJsonObject(s[i])
    {
      if i < |users| {
        assert s[i] == users[i];
      }
    }
  }

  /** Recording two operations one after the other records both, in order. */
  lemma AppendTwice(history: seq<FileOp>, first: FileOp, second: FileOp)
    ensures history + [first] + [second] == history + [first, second]
  {
  }

  /** The request body of the registration scenario. */
  function AnaRequest(): (body: JsObject)
    ensures HasRequiredFields(body) && IsJsonObject(body)
    ensures Get(body, "email") == Str("ana@x.com") && Get(body, "senha").Str?
  {
    map["nome" := Str("Ana"), "email" := Str("ana@x.com"), "senha" := Str("abc123")]
  }

  /** The scenario of a fresh install: the file is created empty, Ana's
      registration is a 201 echoing her email (and, as the route is written,
      her password hash), and the identical request again is a 409 that
      leaves one record. */
  method AnaRegistersTwice(env: Env) returns (first: Outcome, second: Outcome, stored: nat)
    requires env.readOk && env.writeOk
    ensures first.Created? && "email" in first.usuario && first.usuario["email"] == Str("ana@x.com")
    ensures "password" in first.usuario && "id" !in first.usuario
    ensures second == Conflict
    ensures stored == 1
  {
    var file := new UsersFile(None);
    var body := AnaRequest();
    CreatedExactlyWhenEmailFree([], body, env);
    CreatedRecordContents([], body, env);
    SuccessAppendsTheAnsweredRecord([], body, env);
    RepeatedPostConflicts([], body, env, env);
    first := file.Post(body, env);
    second := file.Post(body, env);
    stored := |file.users|;
  }
}
