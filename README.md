# Demo credential lookup (modules/auth.js)

This project models the repository's one piece of behavioural logic: the demo
credential lookup in `modules/auth.js`. The module holds a fixed in-memory
table of user records `{id, username, password}`. Its exported
`authenticate(username, password)` runs `users.find(...)` with a predicate
that requires both the username and the password to be strictly equal (`===`)
to the arguments. It returns the first such record, or `null` when none
matches.

The model is pure, as the source's lookup is: there is one array bound by
`const`, one `find` call and one ternary, with no loop of the module's own,
and `authenticate` itself writes nothing.

- `wrappers.dfy` (module `Wrappers`): `Option`. `None` stands for the
  `undefined` that `find` yields and the `null` that `authenticate` returns.
  The ternary `user ? user : null` only turns `undefined` into `null`, because
  a record object is always truthy, so a found record comes back unchanged.
- `auth.dfy` (module `Auth`):
  - `User` is the record type.
  - `Matches` is the `find` predicate.
  - `FindFrom` is the ascending index scan that `Array.prototype.find` performs.
  - `Lookup` is `authenticate` over an arbitrary table.
  - `Users` is the shipped two-entry table.
  - `Authenticate` is `Lookup` over `Users`.

The postconditions of `Lookup` and `Authenticate` state soundness (a returned
record is a table element whose two fields equal the arguments) and
completeness (null exactly when no record matches). Lemmas state the following:
- first-match choice when several records match;
- how the scan composes over a concatenated table;
- uniqueness of a match when usernames are distinct;
- independence from table order for such tables;
- the concrete outcomes on the shipped data.

`authenticate` never writes the table: it only reads it through `find`. In
the model `Users` is a `const` value and every operation is a function. The
source's `const` binding does not freeze the array or its records, though;
see "## Left out" for what that means for the returned record.

## Model

| member | source | states |
|---|---|---|
| `Auth.FindFrom` | modules/auth.js:10 | The index `find` stops at, scanning from `start` upwards. When an index is returned, it is in range, that record matches both fields, and no index between `start` and it matches. When nothing is returned, no index from `start` on matches. |
| `Auth.Lookup` | modules/auth.js:9-12 | A non-null result is an element of the table, not a constructed record. Its username and password equal the arguments exactly. The result is null if and only if no record of the table matches both fields. |
| `Auth.LookupReturnsFirstMatch` | modules/auth.js:10 | If index `i` matches and no earlier index does, the lookup returns exactly the record at `i`. So when several records match, the smallest index wins. |
| `Auth.LookupFoundAtFirstMatch` | modules/auth.js:10-11 | Conversely, a non-null result is the record at some first-match index: it matches, and every record before it does not. |
| `Auth.LookupAppend` | modules/auth.js:10 | Looking up in `a + b` gives the result from `a` when `a` has a match. Otherwise it gives the result from `b`. This is the in-order scan of `find`. |
| `Auth.AtMostOneMatch` | modules/auth.js:4-7 | In a table whose usernames are pairwise distinct, two indices that both match the same credentials are the same index. |
| `Auth.LookupOrderIndependent` | modules/auth.js:4-10 | For a table with distinct usernames, any rearrangement of the same records gives the same result for every credential pair. |
| `Auth.Authenticate` | modules/auth.js:4-12 | On the shipped table: a non-null result is one of the shipped records with exactly the given username and password. The result is null if and only if no shipped record matches both fields. |
| `Auth.ShippedUsernamesDistinct` | modules/auth.js:4-7 | The usernames of the shipped records are pairwise distinct. |
| `Auth.AuthenticateShippedUsers` | modules/auth.js:5-10 | `authenticate('john', 'password1')` returns the record with id 1. `authenticate('jane', 'password2')` returns the record with id 2. |
| `Auth.AuthenticateNeedsBothFields` | modules/auth.js:5-10 | A known username with the other user's password is refused: `authenticate('john', 'password2')` and `authenticate('jane', 'password1')` are null. |
| `Auth.AuthenticateOrderIndependent` | modules/auth.js:4-7 | Every reordering of the shipped table gives the same answer as the shipped order, for every credential pair. |

## Left out

- Authenticate: arguments that are not strings are not modelled. Examples are `undefined` from a missing argument, numbers and objects. The parameters are typed as strings. Under `===`, a non-string never equals a record's string field, so in the source such calls always return null.
- Lookup and Authenticate: the record returned is the table's own mutable object, not a copy, and identity and aliasing are not modelled. Records are Dafny values, so `r.value in users` is membership by value. JavaScript's `const` (modules/auth.js:4) fixes only the binding and does not freeze the array or its records. A caller that changes the returned record, for example by assigning its `password` or deleting a field before serialising it, changes the shared table, and later calls then answer differently. The model cannot express that.
- String equality is Dafny sequence equality on characters. JavaScript's `===` on strings compares UTF-16 code units. The two agree on the shipped data, but surrogate-level differences are not modelled.
- The `module.exports` line (modules/auth.js:14-16) only publishes the function. It is modelled as `Authenticate` being the module's public operation.
- my-app/backend/app.js and my-nuxt-app/backend/app.js are left out. They hold only framework wiring: the Express app, CORS and JSON middleware, route mounting, HTTP server creation, and database sync followed by listening on port 3000. my-app/backend/app.js:16-21 also logs Socket.IO connections and disconnections. These are I/O and library calls whose code is not visible.
- my-app/backend/controllers/patientController.js is left out. It forwards the request body to the ORM's `Patient.create`, forwards `Patient.findAll` results, broadcasts over Socket.IO and writes HTTP statuses. Id assignment, persistence and delivery all live in external libraries.
- my-app/backend/models/patient.js is left out. It is an ORM schema declaration with no behaviour.
- index.js is left out. It is a hello-world route and server start. Its `PORT` default reads the process environment during startup.
- Any security property of `authenticate` is left out. It does no hashing and issues no session or token. The model captures only the lookup semantics.
