# Create-user route of cadastro-express, modelled in Dafny

The service has one endpoint, `POST /api/users`. Its handler decides the
route's outcome in this order:

1. It checks that `nome`, `email` and `senha` are truthy, and answers 400 if one is not.
2. It reads and parses the users file. A failure here is a 500.
3. It looks for a stored record whose `email` is `===` the submitted one, and answers 409 if it finds one.
4. It hashes `senha` with bcrypt at cost 10.
5. It builds the new record and appends it.
6. It rewrites the whole file. A failed write is a 500.
7. It answers 201 with the record.

The same file is created holding `[]` when the module loads and finds no file.

The model has five modules:

- `Js` (`js.dfy`) models the JavaScript semantics the handler depends on. It covers truthiness, `===`, property lookup, the rest pattern `{ senha: _, ...rest }`, and the effect of `JSON.stringify` and `JSON.parse` on an object. That effect is that function-valued and `undefined` properties disappear and an infinity comes back as `null`.
- `Bcrypt` (`bcrypt.dfy`) models the stored hash string. Its layout is `$2b$10$`, then a 22-character salt, then a 31-character digest. The salt and the digest function are parameters, because the real salt is random and the real digest is a foreign library call. `Matches` is the library's comparison against a hash with this route's version and cost.
- `UserRoutes` (`user_routes.dfy`) specifies one request. `Handle` maps the file contents, the request body and an environment to an outcome, the new file contents and the file operations performed. The environment `Env` collects everything the request cannot see in its inputs: whether the read succeeds, the salt, the digest function, the two clock readings and whether the write succeeds.
- `UserRoutesProperties` (`user_routes_properties.dfy`) holds the lemmas about `Handle`.
- `UsersStore` (`users_store.dfy`) covers the users file as state:
  - The class `UsersFile` holds two fields: `users`, the file contents as `JSON.parse` returns them, and `io`, the history of file operations: every read attempted, and only the writes that took effect (a failed write leaves no entry).
  - Its constructor is the load-time bootstrap.
  - Its method `Post` is the handler, with the early returns. `Post` is proved to do exactly what `Handle` says, and its contract also states the main properties directly.
  - A client method replays the registration scenario, in which Ana posts twice.

In these places the code does something other than its names and comments suggest; the model follows the code:

- **`id`:** the record's `id` is the generator function `uuidv4` itself, not an identifier it produced. Serialisation drops function-valued properties, so neither the stored record nor the response has an `id` (`CreatedRecordContents`). The model makes no claim that ids are distinct.
- **Password in the response:** the response is meant to omit the password. The rest pattern removes a key `senha`, but the record's key is `password`. The response therefore carries the bcrypt hash under `password` (`CreatedRecordContents`, `AnaRegistersTwice`).
- **Email uniqueness:** emails are unique only under `===`, and only among the values the file can hold. The request body is not type-checked:
  - An object or array email is never `===` to anything. Two posts with the same object email are both accepted, and the file then holds two records with equal email values (`ObjectEmailStoredTwice`, `RepeatedPostConflicts`).
  - A numeric email too large for a double, such as `1e400`, parses to `Infinity`. `JSON.stringify` writes it as `null`, so the stored record's email is `null`. A second identical post finds no `Infinity` in the file and is accepted again. The file then holds two records whose emails are both `null` and `===` each other (`InfiniteEmailStoredAsNullTwice`, `DistinctEmailsPreserved`).
  - For string, finite-number and boolean emails, the second post is a 409 (`RepeatedPostConflicts`).
- **Timestamps:** `createdAt` and `updatedAt` come from two separate clock readings, not one. The model takes them as two parameters, which can differ.
- **Non-string password:** a truthy password that is not a string (a number, `true`, an object) passes validation. bcrypt then rejects it and the route answers 500. The file is read but not written.
- **The whole file is rewritten:** the write serialises every record again, not only the new one. Records the route wrote hold only JSON values, so they come back unchanged (`SuccessAppendsTheAnsweredRecord`, `UsersFile.Valid`).

## Model

| member | source | states |
|---|---|---|
| `Js.Truthy` | routes/userRoutes.js:22 | `undefined` and `null` are falsy, a string is truthy exactly when it is non-empty, and infinities, objects, arrays and functions are truthy |
| `Js.StrictEquals` | routes/userRoutes.js:34 | `===` holds only between equal values, never when the left side is an object or array, and always between equal values that are not objects or arrays |
| `Js.StrictEqualsSymmetric` | routes/userRoutes.js:34 | `===`, as the `find` callback uses it, is symmetric |
| `Js.StrictEqualsTransitive` | routes/userRoutes.js:34 | `===` is transitive |
| `Js.Get` | routes/userRoutes.js:19 | reading a property gives its value when present and `undefined` otherwise, which is how the destructured `nome`, `email` and `senha` and `user.email` are read |
| `Js.Serialise` | routes/userRoutes.js:60 | a property value that JSON can hold is written and read back as itself; an infinity comes back as `null` |
| `Js.Stringify` | routes/userRoutes.js:60 | serialising and re-parsing an object keeps every parsed property, an infinity becoming `null`, drops every `undefined` or function property, adds none, and leaves only JSON values |
| `Js.StringifyIdentityOnJson` | routes/userRoutes.js:30-31 | an object that already holds only JSON values reads back from the file exactly as it was written |
| `Js.StringifyAll` | routes/userRoutes.js:60 | serialising the array keeps its length and serialises each record in place |
| `Js.StringifyAllAppend` | routes/userRoutes.js:57-60 | pushing a record and then serialising the array is serialising the old array with the serialised record after it |
| `Js.StringifyAllIdentityOnJson` | routes/userRoutes.js:30-31 | an array of records holding only JSON values is written back exactly as it was read |
| `Js.Omit` | routes/userRoutes.js:63 | the rest pattern yields every property except the named one, unchanged, and nothing else |
| `Js.OmitAbsentKey` | routes/userRoutes.js:63 | omitting a key the object does not have leaves the object as it was |
| `Bcrypt.CostField` | routes/userRoutes.js:43 | the work factor is written as two decimal digits whose value is the work factor |
| `Bcrypt.Prefix` | routes/userRoutes.js:43 | the hash starts with seven characters: version `$2b$`, the two cost digits, `$`; that is `$2b$10$` |
| `Bcrypt.Hash` | routes/userRoutes.js:43 | the stored hash of a password is 60 characters: the prefix, then the salt, then the digest of password and salt |
| `Bcrypt.Matches` | routes/userRoutes.js:43 | a stored hash the comparison accepts has the 60-character shape under the prefix, and its digest is that of the candidate password with the stored salt |
| `Bcrypt.HashThenMatches` | routes/userRoutes.js:43 | the library's comparison accepts a password against its own stored hash |
| `Bcrypt.HashIsNotPlaintext` | routes/userRoutes.js:43 | the stored hash differs from the password unless the password itself has the 60-character bcrypt shape under the same prefix |
| `UserRoutes.HasRequiredFields` | routes/userRoutes.js:22 | a body that passes validation has all three properties, a non-null email and a non-empty password |
| `UserRoutes.FindByEmail` | routes/userRoutes.js:34-36 | `find` returns the first record whose email is `===` the submitted one, and returns nothing exactly when no record's email is |
| `UserRoutes.NewUser` | routes/userRoutes.js:46-54 | the record built has exactly the keys id, name, email, password, createdAt and updatedAt, no `senha`, an `id` that is not a JSON value, and the hash under `password` |
| `UserRoutes.Handle` | routes/userRoutes.js:17-76 | only a 201 changes the file contents, and it adds exactly one record; a request performs no file operation exactly when it is a 400 |
| `UserRoutes.Respond` | routes/userRoutes.js:22-75 | a 201 is sent exactly for a created user and carries that user; a 400 exactly for a missing field, a 409 exactly for a taken email, and a 500 exactly for an internal error |
| `UsersStore.UsersFile.constructor` | routes/userRoutes.js:13-15 | a missing file is created holding the empty collection (one write of `[]`); an existing one is taken as it is and not written |
| `UsersStore.UsersFile.Post` | routes/userRoutes.js:17-76 | the handler's outcome, new file contents and appended file operations are those of `Handle`, and the file keeps holding JSON objects. It answers 400 exactly when a field is missing, with no file operation. Any failure leaves the contents and the write count unchanged. A 201 appends exactly the answered record and writes once. Pairwise distinct emails stay distinct unless the email is an infinity |
| `UsersStore.PostSummary` | routes/userRoutes.js:17-76 | for a file of JSON objects, one request keeps it one, appends exactly the answered record on a 201 with one more write, changes and writes nothing otherwise, performs no file operation on a 400, and keeps distinct finite emails distinct |
| `UsersStore.AllJsonAppend` | routes/userRoutes.js:57-60 | pushing a serialised record onto a file of JSON objects keeps it one |
| `UserRoutesProperties.BadRequestExactlyWhenFieldMissing` | routes/userRoutes.js:22-26 | the outcome is 400 exactly when `nome`, `email` or `senha` is falsy, and then the file is neither read nor written |
| `UserRoutesProperties.ConflictExactlyWhenEmailTaken` | routes/userRoutes.js:34-40 | the outcome is 409 exactly when the fields are present, the read succeeded and some stored email is `===` the submitted one; the file is then read once and unchanged |
| `UserRoutesProperties.CreatedExactlyWhenEmailFree` | routes/userRoutes.js:22-68 | the outcome is 201 exactly when the fields are present, the read succeeded, no stored email is `===` the submitted one, the password is a string and the write succeeded |
| `UserRoutesProperties.InternalErrorExactlyWhenStepFails` | routes/userRoutes.js:28-75 | the outcome is 500 exactly when, past validation, the read failed, or `find` found nothing and then hashing or writing failed |
| `UserRoutesProperties.FailureLeavesFileUnchanged` | routes/userRoutes.js:22-75 | no outcome other than 201 changes the file contents or writes the file |
| `UserRoutesProperties.WrittenExactlyOnceOnSuccess` | routes/userRoutes.js:30-60 | the file is written once on a 201 and never otherwise; it is read first on every request that passes validation and not at all on a 400 |
| `UserRoutesProperties.SuccessAppendsTheAnsweredRecord` | routes/userRoutes.js:57-67 | a 201 makes the new contents the re-serialised old ones plus exactly one record at the end, and that record is the one in the response; for a file of JSON objects the old records stay exactly as they were |
| `UserRoutesProperties.CreatedRecordContents` | routes/userRoutes.js:43-67 | on a 201, the record and the response have keys name, email, password, createdAt and updatedAt, and nothing else: no `id`, and `password` is still present. Name and email are the submitted ones, an infinity stored as `null`. The password is the bcrypt hash of `senha`, which the comparison accepts and which is not `senha` unless `senha` has bcrypt's shape. The two dates are the clock readings |
| `UserRoutesProperties.SerialisedRecordContents` | routes/userRoutes.js:46-60 | the serialised new record has exactly the keys name, email, password, createdAt and updatedAt, with the serialised name and email, the hash and the two clock readings |
| `UserRoutesProperties.DistinctEmailsPreserved` | routes/userRoutes.js:34-60 | if no two stored emails are `===` before a request, none are after it, whatever the outcome, unless the email is an infinity; then they stay distinct exactly when the request fails or no stored email is `null` |
| `UserRoutesProperties.DistinctEmailsAfterAppend` | routes/userRoutes.js:57 | appending a record to a file with distinct emails keeps them distinct exactly when no stored email is `===` the new one |
| `UserRoutesProperties.CountEmailAppend` | routes/userRoutes.js:57 | appending a record adds one to the number of records matching an email exactly when the record's email matches it |
| `UserRoutesProperties.CountEmailZero` | routes/userRoutes.js:34 | when `find` would find nothing, no record matches the email |
| `UserRoutesProperties.DistinctEmailsCountAtMostOne` | routes/userRoutes.js:34-40 | with pairwise distinct emails, at most one record matches any email |
| `UserRoutesProperties.SerialisedEmailMatchesOnlyIfBefore` | routes/userRoutes.js:34-60 | a record's email matches a truthy submitted email after the file round trip only if it matched before |
| `UserRoutesProperties.RepeatedPostConflicts` | routes/userRoutes.js:34-60 | after a 201, posting the same body again is a 409 exactly when the email is neither an object or array nor an infinity, and then exactly one stored record has that email; otherwise none has |
| `UserRoutesProperties.ObjectEmailStoredTwice` | routes/userRoutes.js:34-60 | the same object-valued email posted twice to an empty file is accepted twice, leaving two records with the same email value |
| `UserRoutesProperties.InfiniteEmailStoredAsNullTwice` | routes/userRoutes.js:34-60 | the same infinite email posted twice to an empty file is accepted twice, leaving two records whose emails are both `null`, so the emails are no longer distinct |
| `UserRoutesProperties.WriteCountAppend` | routes/userRoutes.js:60 | the writes in a history made of two parts are the writes of the first part plus those of the second |
| `UserRoutesProperties.StatusDistinguishesOutcome` | routes/userRoutes.js:22-75 | two outcomes get the same status code exactly when they are the same kind of outcome |
| `UsersStore.AnaRegistersTwice` | routes/userRoutes.js:13-76 | on a fresh install, Ana's first registration is a 201 that echoes her email, has no `id` and still has `password`; the identical second one is a 409, and the file ends with one record |

## Left out

- The application bootstrap in `app.js` is left out. That covers the JSON body parser, the CORS and logging middleware, mounting the router and `listen`. It is framework wiring. The model assumes the parser delivers the body as an object of parsed values (`IsParsedObject`), which is why several lemmas require it.
- A request without an object body is left out. Destructuring `request.body` happens outside the `try`, so that failure is the framework's, not the route's.
- File I/O (`existsSync`, `readFileSync`, `writeFileSync`) is replaced by the `users` field and the `io` history. A file that cannot be read or is not valid JSON throws inside the `try`; so does a file holding something other than an array (it has no `find`), or an array with a `null` element that `find` reaches before any match (reading `email` from it throws). All of these answer 500 and are modelled only as the `readOk` flag.
- An array whose elements are primitives, such as `[1]` or `["x"]`, is not modelled: the file is an array of objects. In the program such an element reads `email` as `undefined`, never matches, and the route appends the new record and answers 201.
- UsersStore.UsersFile.constructor: requires an existing file to hold only JSON values. A hand-edited file with a number literal too large for a double, which would parse to an infinity, is not modelled.
- UserRoutesProperties.DistinctEmailsPreserved: requires the stored records to hold only JSON values, as every file the route writes does; a hand-edited file holding something else is not covered.
- A failed write is modelled as leaving the file untouched and the `io` history without a write entry. Partial writes are not modelled.
- Bcrypt.Matches: accepts only hashes under the prefix `$2b$10$`; the library's comparison of hashes with other versions or costs is not modelled, because the route never produces them.
- The bcrypt algorithm is not modelled: salt generation and the digest are parameters. The model records only which values bcrypt rejects, namely a password that is not a string.
- `uuidv4` is never called by the route, so no identifier generation is modelled.
- `new Date().toLocaleDateString()` is left out because it depends on the clock and the locale. Its two readings are parameters.
- Concurrency is left out. Two requests racing between the read and the write, across the `await` on the hash, could both pass the uniqueness check, or one write could overwrite the other. The model runs one request at a time.
- The module-path line is left out. It refers to `_dirname`, which ES modules do not define, so as written the module fails to load before the route exists. The model assumes the path resolves.
- `console.error` logging is left out because it is I/O with no effect on the outcome.
- `Js.StrictEquals` does not model object identity in general. It treats every object or array as distinct from every other value, which is exact for the values the handler compares: each comes from its own `JSON.parse`.
- Numbers are modelled as exact finite reals plus the two infinities, not as doubles. Rounding of a long literal to the nearest double, and `NaN` (which JSON cannot produce), are not modelled.
- An object or array value is kept as its JSON text (`Composite`). What serialisation does inside it, such as an infinity nested in an array email, is not modelled.
- JavaScript strings are sequences of UTF-16 code units and may hold a lone surrogate; a Dafny `char` cannot, so such strings are not modelled.
- Objects are maps, so the order of their properties is not modelled. It affects only the layout of the JSON text written to the file and sent back, not any value the route compares.
- The indentation of the written file (`JSON.stringify(users, null, 2)`) is not modelled, because the file is kept as the values it parses back to.
