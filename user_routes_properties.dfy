/** What the create-user route guarantees, stated about `Handle` and so,
    through the contract of `UsersFile.Post`, about the handler itself. */
module UserRoutesProperties {
  import opened Js
  import Bcrypt
  import opened UserRoutes

  /** A missing or empty `nome`, `email` or `senha` is a 400, and then the
      file is neither read nor written. */
  lemma BadRequestExactlyWhenFieldMissing(users: seq<JsObject>, body: JsObject, env: Env)
    ensures Handle(users, body, env).outcome == BadRequest <==> !HasRequiredFields(body)
    ensures !HasRequiredFields(body) ==> Handle(users, body, env).users == users
    ensures !HasRequiredFields(body) ==> Handle(users, body, env).io == []
  {
  }

  /** A 409 comes exactly when the fields are present, the file was read and
      some stored record's email is `===` the submitted one; the file is then
      read once and left as it was. */
  lemma ConflictExactlyWhenEmailTaken(users: seq<JsObject>, body: JsObject, env: Env)
    ensures Handle(users, body, env).outcome == Conflict <==>
      HasRequiredFields(body) && env.readOk &&
      exists k :: 0 <= k < |users| && StrictEquals(Get(users[k], "email"), Get(body, "email"))
    ensures Handle(users, body, env).outcome == Conflict ==>
      Handle(users, body, env).users == users && Handle(users, body, env).io == [ReadFile]
  {
  }

  /** A 201 comes exactly when the fields are present, the file was read, no
      stored email is `===` the submitted one, the password is a string the
      hash accepts and the write succeeded. */
  lemma CreatedExactlyWhenEmailFree(users: seq<JsObject>, body: JsObject, env: Env)
    ensures Handle(users, body, env).outcome.Created? <==>
      HasRequiredFields(body) && env.readOk &&
      (forall k :: 0 <= k < |users| ==> !StrictEquals(Get(users[k], "email"), Get(body, "email"))) &&
      Get(body, "senha").Str? && env.writeOk
  {
  }

  /** A 500 comes exactly when, past validation, the read failed, or no
      conflict was found and then the hash or the write failed. */
  lemma InternalErrorExactlyWhenStepFails(users: seq<JsObject>, body: JsObject, env: Env)
    ensures Handle(users, body, env).outcome == InternalError <==>
      HasRequiredFields(body) &&
      (!env.readOk ||
       (FindByEmail(users, Get(body, "email")).None? && (!Get(body, "senha").Str? || !env.writeOk)))
  {
  }

  /** No failure changes the file or writes to it. */
  lemma FailureLeavesFileUnchanged(users: seq<JsObject>, body: JsObject, env: Env)
    requires !Handle(users, body, env).outcome.Created?
    ensures Handle(users, body, env).users == users
    ensures WriteCount(Handle(users, body, env).io) == 0
  {
    WriteCountOfRequest([]);
  }

  /** Every request that gets past validation reads the file once, first;
      the file is written once on a 201 and never otherwise. */
  lemma WrittenExactlyOnceOnSuccess(users: seq<JsObject>, body: JsObject, env: Env)
    ensures WriteCount(Handle(users, body, env).io) == if Handle(users, body, env).outcome.Created? then 1 else 0
    ensures Handle(users, body, env).io == [] <==> !HasRequiredFields(body)
    ensures HasRequiredFields(body) ==> Handle(users, body, env).io[0] == ReadFile
  {
    WriteCountOfRequest(Handle(users, body, env).users);
  }

  /** The histories a single request can leave, with their write counts. */
  lemma WriteCountOfRequest(saved: seq<JsObject>)
    ensures WriteCount([]) == 0 && WriteCount([ReadFile]) == 0
    ensures WriteCount([ReadFile, WriteFile(saved)]) == 1
  {
    assert [ReadFile, WriteFile(saved)][..1] == [ReadFile];
    assert [ReadFile][..0] == [];
  }

  /** A 201 appends exactly one record, at the end, and answers with that
      same record. The earlier records are written back as serialisation
      leaves them; when they already hold only JSON values (as every file the
      route wrote does) they keep their order and content. */
  lemma SuccessAppendsTheAnsweredRecord(users: seq<JsObject>, body: JsObject, env: Env)
    requires Handle(users, body, env).outcome.Created?
    ensures Handle(users, body, env).users == StringifyAll(users) + [Handle(users, body, env).outcome.usuario]
    ensures AllJson(users) ==> Handle(users, body, env).users == users + [Handle(users, body, env).outcome.usuario]
    ensures |Handle(users, body, env).users| == |users| + 1
    ensures Handle(users, body, env).io == [ReadFile, WriteFile(Handle(users, body, env).users)]
  {
    var senha := Get(body, "senha");
    var record := NewUser(Get(body, "nome"), Get(body, "email"),
                          Bcrypt.Hash(env.digest, senha.s, env.salt), env);
    OmitAbsentKey(record, "senha");
    if AllJson(users) {
      StringifyAllIdentityOnJson(users);
    }
  }

  /** The record a 201 stores and answers with: the submitted name and email,
      the bcrypt hash of the submitted password (which the library's own
      comparison accepts, and which is not the password), the two clock
      readings, no `id` (the stored function reference does not survive
      serialisation) and, despite the rest pattern, the `password`. A name
      or email of `Infinity` or `-Infinity` is stored and answered as `null`. */
  lemma CreatedRecordContents(users: seq<JsObject>, body: JsObject, env: Env)
    requires IsParsedObject(body)
    requires Handle(users, body, env).outcome.Created?
    ensures var u := Handle(users, body, env).outcome.usuario;
      && u.Keys == {"name", "email", "password", "createdAt", "updatedAt"}
      && u["name"] == Serialise(Get(body, "nome"))
      && u["email"] == Serialise(Get(body, "email"))
      && (IsJson(Get(body, "email")) ==> u["email"] == Get(body, "email"))
      && (Get(body, "email").NonFinite? ==> u["email"] == Null)
      && u["password"] == Str(Bcrypt.Hash(env.digest, Get(body, "senha").s, env.salt))
      && u["createdAt"] == Str(env.createdAt)
      && u["updatedAt"] == Str(env.updatedAt)
      && Bcrypt.Matches(env.digest, Get(body, "senha").s, u["password"].s)
    ensures var u := Handle(users, body, env).outcome.usuario;
      var senha := Get(body, "senha").s;
      (|senha| != 60 || senha[..7] != Bcrypt.Prefix()) ==> u["password"] != Str(senha)
  {
    var senha := Get(body, "senha").s;
    var hashed := Bcrypt.Hash(env.digest, senha, env.salt);
    var record := NewUser(Get(body, "nome"), Get(body, "email"), hashed, env);
    OmitAbsentKey(record, "senha");
    CreatedExactlyWhenEmailFree(users, body, env);
    assert "nome" in body && "email" in body;
    SerialisedRecordContents(Get(body, "nome"), Get(body, "email"), hashed, env);
    Bcrypt.HashThenMatches(env.digest, senha, env.salt);
    if |senha| != 60 || senha[..7] != Bcrypt.Prefix() {
      Bcrypt.HashIsNotPlaintext(env.digest, senha, env.salt);
    }
  }

  /** The new record as serialisation leaves it: the `id` function reference
      is dropped, every other property survives, an infinite name or email
      becoming `null`. */
  lemma SerialisedRecordContents(nome: JsValue, email: JsValue, hashed: string, env: Env)
    requires IsParsed(nome) && IsParsed(email)
    ensures var u := Stringify(NewUser(nome, email, hashed, env));
      && u.Keys == {"name", "email", "password", "createdAt", "updatedAt"}
      && u["name"] == Serialise(nome)
      && u["email"] == Serialise(email)
      && u["password"] == Str(hashed)
      && u["createdAt"] == Str(env.createdAt)
      && u["updatedAt"] == Str(env.updatedAt)
  {
    var record := NewUser(nome, email, hashed, env);
    var u := Stringify(record);
    assert u.Keys == {"name", "email", "password", "createdAt", "updatedAt"} by {
      assert !IsJson(record["id"]);
    }
  }

  /** Whatever the outcome, a file the route wrote whose emails were pairwise
      distinct under `===` still is afterwards, unless the email is an
      infinity: that one is stored as `null`, so distinctness then survives a
      201 exactly when no stored email is `null`. */
  lemma DistinctEmailsPreserved(users: seq<JsObject>, body: JsObject, env: Env)
    requires IsParsedObject(body)
    requires AllJson(users)
    requires DistinctEmails(users)
    ensures !Get(body, "email").NonFinite? ==> DistinctEmails(Handle(users, body, env).users)
    ensures Get(body, "email").NonFinite? ==>
      (DistinctEmails(Handle(users, body, env).users) <==>
       !Handle(users, body, env).outcome.Created? ||
       forall k :: 0 <= k < |users| ==> !StrictEquals(Get(users[k], "email"), Null))
  {
    var step := Handle(users, body, env);
    if step.outcome.Created? {
      CreatedRecordContents(users, body, env);
      SuccessAppendsTheAnsweredRecord(users, body, env);
      CreatedExactlyWhenEmailFree(users, body, env);
      DistinctEmailsAfterAppend(users, step.outcome.usuario);
    }
  }

  /** Appending a record to a file with pairwise distinct emails keeps them
      distinct exactly when no stored email is `===` the new one. */
  lemma DistinctEmailsAfterAppend(users: seq<JsObject>, u: JsObject)
    requires DistinctEmails(users)
    ensures DistinctEmails(users + [u]) <==>
      forall k :: 0 <= k < |users| ==> !StrictEquals(Get(users[k], "email"), Get(u, "email"))
  {
    var s := users + [u];
    if forall k :: 0 <= k < |users| ==> !StrictEquals(Get(users[k], "email"), Get(u, "email")) {
      forall i, j | 0 <= i < j < |s|
        ensures !StrictEquals(Get(s[i], "email"), Get(s[j], "email"))
      {
        assert s[i] == users[i];
        if j < |users| {
          assert s[j] == users[j];
        }
      }
    } else {
      var k :| 0 <= k < |users| && StrictEquals(Get(users[k], "email"), Get(u, "email"));
      assert s[k] == users[k] && s[|users|] == u;
    }
  }

  lemma CountEmailAppend(users: seq<JsObject>, u: JsObject, email: JsValue)
    ensures CountEmail(users + [u], email)
         == CountEmail(users, email) + if StrictEquals(Get(u, "email"), email) then 1 else 0
  {
    assert (users + [u])[..|users|] == users;
  }

  /** No record matches an email that `find` does not find. */
  lemma {:induction false} CountEmailZero(users: seq<JsObject>, email: JsValue)
    requires forall k :: 0 <= k < |users| ==> !StrictEquals(Get(users[k], "email"), email)
    ensures CountEmail(users, email) == 0
  {
    if |users| > 0 {
      CountEmailZero(users[..|users| - 1], email);
    }
  }

  /** With pairwise distinct emails, at most one record matches any email. */
  lemma {:induction false} DistinctEmailsCountAtMostOne(users: seq<JsObject>, email: JsValue)
    requires DistinctEmails(users)
    ensures CountEmail(users, email) <= 1
  {
    if |users| > 0 {
      var init := users[..|users| - 1];
      var last := users[|users| - 1];
      assert DistinctEmails(init) by {
        forall i, j | 0 <= i < j < |init|
          ensures !StrictEquals(Get(init[i], "email"), Get(init[j], "email"))
        {
          assert init[i] == users[i] && init[j] == users[j];
        }
      }
      DistinctEmailsCountAtMostOne(init, email);
      if StrictEquals(Get(last, "email"), email) {
        forall k | 0 <= k < |init|
          ensures !StrictEquals(Get(init[k], "email"), email)
        {
          assert init[k] == users[k];
          assert !StrictEquals(Get(users[k], "email"), Get(last, "email"));
        }
        CountEmailZero(init, email);
      }
    }
  }

  /** A record's email, once the record is serialised and read back, is
      `===` a truthy parsed email only if it was before. */
  lemma SerialisedEmailMatchesOnlyIfBefore(u: JsObject, email: JsValue)
    requires Truthy(email) && IsParsed(email)
    ensures StrictEquals(Get(Stringify(u), "email"), email) ==> StrictEquals(Get(u, "email"), email)
  {
    if "email" in u && IsParsed(u["email"]) {
      assert Get(Stringify(u), "email") == Serialise(u["email"]);
    }
  }

  /** Posting the same body again after a 201: a string, finite number or
      boolean email is now taken, so the second post is a 409 and exactly one
      record has that email. An object or array email is never `===` to
      anything, and an infinite one was stored as `null`, so in both cases
      the second post is not a 409 and no record matches the email. */
  lemma RepeatedPostConflicts(users: seq<JsObject>, body: JsObject, env1: Env, env2: Env)
    requires IsParsedObject(body)
    requires Handle(users, body, env1).outcome.Created?
    requires env2.readOk
    ensures var saved := Handle(users, body, env1).users;
      Handle(saved, body, env2).outcome == Conflict <==>
        !Get(body, "email").Composite? && !Get(body, "email").NonFinite?
    ensures var saved := Handle(users, body, env1).users;
      CountEmail(saved, Get(body, "email")) ==
        if Get(body, "email").Composite? || Get(body, "email").NonFinite? then 0 else 1
  {
    var email := Get(body, "email");
    var saved := Handle(users, body, env1).users;
    CreatedRecordContents(users, body, env1);
    SuccessAppendsTheAnsweredRecord(users, body, env1);
    CreatedExactlyWhenEmailFree(users, body, env1);
    assert "email" in body;
    var rewritten := StringifyAll(users);
    assert saved == rewritten + [saved[|users|]];
    forall k | 0 <= k < |rewritten|
      ensures !StrictEquals(Get(rewritten[k], "email"), email)
    {
      SerialisedEmailMatchesOnlyIfBefore(users[k], email);
    }
    CountEmailZero(rewritten, email);
    CountEmailAppend(rewritten, saved[|users|], email);
    if !email.Composite? && !email.NonFinite? {
      assert StrictEquals(Get(saved[|users|], "email"), email);
      ConflictExactlyWhenEmailTaken(saved, body, env2);
    } else {
      forall k | 0 <= k < |saved|
        ensures !StrictEquals(Get(saved[k], "email"), email)
      {
        if k == |users| {
          assert Get(saved[k], "email") == Serialise(email);
        } else {
          assert saved[k] == rewritten[k];
        }
      }
      ConflictExactlyWhenEmailTaken(saved, body, env2);
    }
  }

  /** Uniqueness holds only under `===`: the same object-valued email posted
      twice is accepted twice, and the file ends up with two records whose
      emails are the same JSON value. */
  lemma ObjectEmailStoredTwice(body: JsObject, env: Env)
    requires HasRequiredFields(body) && IsParsedObject(body)
    requires Get(body, "email").Composite? && Get(body, "senha").Str?
    requires env.readOk && env.writeOk
    ensures var first := Handle([], body, env);
      var second := Handle(first.users, body, env);
      && first.outcome.Created? && second.outcome.Created?
      && |second.users| == 2
      && Get(second.users[0], "email") == Get(second.users[1], "email") == Get(body, "email")
  {
    var first := Handle([], body, env);
    CreatedExactlyWhenEmailFree([], body, env);
    CreatedRecordContents([], body, env);
    SuccessAppendsTheAnsweredRecord([], body, env);
    CreatedExactlyWhenEmailFree(first.users, body, env);
    CreatedRecordContents(first.users, body, env);
    SuccessAppendsTheAnsweredRecord(first.users, body, env);
  }

  /** An email too large for a double parses to an infinity, is stored as
      `null`, and so never conflicts: posted twice to an empty file it is
      accepted twice, and the two records' emails are `===`. */
  lemma InfiniteEmailStoredAsNullTwice(body: JsObject, env: Env)
    requires HasRequiredFields(body) && IsParsedObject(body)
    requires Get(body, "email").NonFinite? && Get(body, "senha").Str?
    requires env.readOk && env.writeOk
    ensures var first := Handle([], body, env);
      var second := Handle(first.users, body, env);
      && first.outcome.Created? && second.outcome.Created?
      && |second.users| == 2
      && Get(second.users[0], "email") == Get(second.users[1], "email") == Null
      && !DistinctEmails(second.users)
  {
    var first := Handle([], body, env);
    CreatedExactlyWhenEmailFree([], body, env);
    CreatedRecordContents([], body, env);
    SuccessAppendsTheAnsweredRecord([], body, env);
    assert Get(first.users[0], "email") == Null;
    CreatedExactlyWhenEmailFree(first.users, body, env);
    CreatedRecordContents(first.users, body, env);
    SuccessAppendsTheAnsweredRecord(first.users, body, env);
    var second := Handle(first.users, body, env);
    assert StrictEquals(Get(second.users[0], "email"), Get(second.users[1], "email"));
  }

  /** Each outcome has its own status code. */
  lemma StatusDistinguishesOutcome(a: Outcome, b: Outcome)
    ensures Respond(a).status == Respond(b).status <==>
      a.BadRequest? == b.BadRequest? && a.Conflict? == b.Conflict? && a.Created? == b.Created?
  {
  }

  /** Writes in a history made of two parts are the writes of each part. */
  lemma {:induction false} WriteCountAppend(before: seq<FileOp>, after: seq<FileOp>)
    ensures WriteCount(before + after) == WriteCount(before) + WriteCount(after)
  {
    if |after| > 0 {
      var init := after[..|after| - 1];
      assert (before + after)[..|before + after| - 1] == before + init;
      WriteCountAppend(before, init);
    } else {
      assert before + after == before;
    }
  }
}
