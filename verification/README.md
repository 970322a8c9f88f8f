# Buddy finder: a verified model of the request ledger

The application is a small Flask site where students register, log in, see
the other users on a dashboard and send each other "buddy requests". A request
goes from a sender to a receiver and is `pending` until the receiver accepts
it, after which it is `accepted` for good. This project models `app.py` as
pure transitions over three pieces of state:

- the `user` table (`UserStore`): rows in insertion order, with the unique
  `email` column;
- the `buddy_request` table (`Ledger`): rows in insertion order, each with an
  id, a sender, a receiver and a `Status` of `Pending` or `Accepted`;
- the session of one browser: an optional user id.

Every route is a function `Step(state, route, crypto)` that returns the next
state and an `Outcome` tag (redirect to login, redirect to dashboard, a
rendered page, `BadRequest` for a missing form field, `ServerError` for an
exception the handler does not catch). Password hashing is a parameter: a
`Crypto` value holding a `hash` function and a `verify(hash, password)`
predicate. Being a function, `hash` gives one fixed hash per password, so
bcrypt's random per-call salt is not modelled. Nothing else is assumed about
either.

Files:

- `common.dfy`: `Option`, first-match search, order-keeping filter and the
  fresh-key rule of an integer primary key.
- `records.dfy`: the `User` and `BuddyRequest` rows and `Status`.
- `users.dfy`: lookups by id and by e-mail, the insert of `register` and the
  "everyone but me" listing.
- `ledger.dfy`: `Send`, `Accept` and the two dashboard filters, with the
  idempotence, directionality and "accepted stays accepted" lemmas.
- `app.dfy`: the route handlers and the dispatcher `Step`.
- `traces.dfy`: runs of many requests: the reachable-state invariant, and
  what a run can and cannot do to the ledger.
- `scenario.dfy`: two users register, one sends a request, the other accepts
  it, and both dashboards show it.

Decisions worth knowing:

- Tables are sequences in row order. None of the queries has an `ORDER BY`,
  so SQL promises no order; SQLite answers them with a table scan, which for
  these tables is rowid order, and the model fixes that order. The "first"
  match and the order of the dashboard lists, which
  `Ledger.SendShowsAsIncoming` relies on, follow from this choice. A new row's
  key is one more than the largest key in use (1 for an empty table). This is
  how SQLite assigns an `INTEGER PRIMARY KEY` when nothing is ever deleted.
- The code does not check for a taken e-mail before the insert. The unique
  constraint rejects the commit, and the handler does not catch the error, so
  the model answers `ServerError` and stores nothing.
- `request.form['x']` aborts with status 400 when the field is missing. The
  model answers `BadRequest` and changes nothing.
- `send_request` does not check that the receiver exists, and it does not
  reject a request to oneself. The model does neither.
- On the dashboard, the lookup of a user by key may return `None`. For the session's own
  user this crashes on `user.id`, so the model answers `ServerError`. Inside
  `accepted_users` the list keeps the `None`, so the model uses
  `seq<Option<User>>`. `Traces.ReachableDashboardResolves` proves that
  neither happens in a state reachable from an empty database.
- The URL converter `<int:...>` accepts any non-negative number. SQLite's
  integers are signed 64-bit, and binding a larger number to a query raises
  `OverflowError`, which no handler catches. `send_request` and
  `accept_request` therefore answer `ServerError` with nothing changed when an
  id they query by exceeds `App.MaxSqlInt`.
- Search by name, random matching and a unique `name` column do not appear
  in `app.py`, so they are not modelled.

## Model

| member | source | states |
|---|---|---|
| Common.First | app.py:81 | the index returned holds the first row satisfying the filter, no earlier row satisfies it, and `None` exactly when no row does |
| Common.Filter | app.py:96-98 | an element is in the result exactly when it is in the table and satisfies the filter |
| Common.FilterAppend | app.py:96-98 | filtering keeps table order: filtering two concatenated tables is concatenating the two filtered tables |
| Common.FilterMultiset | app.py:96-98 | every selected row is kept as many times as it occurs and every other row is dropped |
| Common.NextKey | app.py:25 | the new key is at least 1, above every key in use, and is either 1 or one more than a key in use |
| UserStore.Get | app.py:95 | returns a row exactly when some user has that primary key, and the row returned has it |
| UserStore.FindByEmail | app.py:81 | returns a row exactly when some user has that e-mail, and the row returned has it |
| UserStore.GetFindsRow | app.py:25 | with distinct keys, the lookup by a row's key returns that very row |
| UserStore.FindByEmailFindsRow | app.py:27 | with unique e-mails, the lookup by a row's e-mail returns that very row |
| UserStore.NextId | app.py:25 | a new user's key is positive and not used by any existing user |
| UserStore.Insert | app.py:65-68 | fails exactly when the e-mail is already taken; otherwise appends one row with the given fields and a fresh key, leaves the old rows alone, and keeps keys distinct and e-mails unique |
| UserStore.Others | app.py:96 | exactly the users whose key differs from the given one |
| Ledger.Find | app.py:135 | finds a position exactly when some request has that id, and the request there has it |
| Ledger.FindIsUnique | app.py:33 | with distinct ids, the lookup by a request's id lands on that request's position |
| Ledger.NextId | app.py:33 | a new request's id is positive and not used by any existing request |
| Ledger.Send | app.py:120-125 | if any request, pending or accepted, already goes from sender to receiver, the ledger is unchanged; otherwise exactly one `Pending` request from sender to receiver with a fresh id is appended; afterwards the pair always exists, nothing is revoked, and distinct ids and one-request-per-ordered-pair are kept |
| Ledger.Accept | app.py:135-138 | keeps the length and every id, sender and receiver; touches no request with another id; if the id is unknown or the caller is not its receiver the ledger is unchanged; otherwise that request becomes `Accepted`; the only status change possible is `Pending` to `Accepted` on the named request by its receiver |
| Ledger.Incoming | app.py:97 | exactly the requests whose receiver is the user and whose status is `Pending` |
| Ledger.AcceptedSentBy | app.py:98 | exactly the requests whose sender is the user and whose status is `Accepted` |
| Ledger.SendIdempotent | app.py:121-122 | sending the same (sender, receiver) request twice gives the same ledger as sending it once |
| Ledger.SendIsDirectional | app.py:121 | an existing B to A request does not stop A to B from being created; both directions then exist |
| Ledger.SendShowsAsIncoming | app.py:123 | a request that `send_request` creates appears last in its receiver's incoming list, after the requests already there |
| Ledger.FindSameKeys | app.py:135 | the lookup by key depends only on the keys: tables with the same keys in the same positions find a key at the same position |
| Ledger.AcceptIdempotent | app.py:136-137 | accepting the same request twice gives the same ledger as accepting it once, whatever the keys; accepting keeps keys distinct |
| App.HandleRegister | app.py:52-72 | a missing field gives `BadRequest`; a taken e-mail gives `ServerError`; both change nothing. Otherwise exactly one user is appended, with the form's fields, the hash of the password and a fresh key, and the browser goes to login. The ledger and session never change, and distinct keys and unique e-mails are kept |
| App.HandleLogin | app.py:75-87 | tables never change. A missing field gives `BadRequest`. The session is set, to the id of a user holding that e-mail whose hash verifies, only on success. With unique e-mails, success holds exactly when such a user exists. Every other failure is the same "rejected" login page with nothing changed |
| App.AcceptedUsers | app.py:98-99 | one entry per accepted request the user sent, in order; the entry is the receiver's row when that key exists, `None` otherwise |
| App.HandleDashboard | app.py:90-105 | read-only; without a session it redirects to login; a session naming no user is a server error; otherwise it shows that user, exactly the other users, exactly the pending requests addressed to them, and the receivers of their accepted sent requests |
| App.HandleSendRequest | app.py:114-127 | without a session nothing changes and the browser goes to login; a sender or receiver id beyond SQLite's 64-bit range is a server error that changes nothing; otherwise the ledger is `Send` from the session user: unchanged if that ordered pair exists, else grown by one `Pending` request to the receiver |
| App.HandleAcceptRequest | app.py:130-140 | without a session nothing changes; an id beyond SQLite's 64-bit range is a server error that changes nothing; an unknown id or a caller who is not the receiver changes nothing; otherwise exactly the named request becomes `Accepted` and every other request is untouched |
| App.Step | app.py:47-140 | `dashboard`, `send_request` and `accept_request` without a session change nothing and redirect to login. `logout` always leaves no session. Only login and logout touch the session and only register touches users, which are only appended. The ledger never loses or revokes anything. New requests are `Pending` and come from the session user's `send_request`. A status change is `Pending` to `Accepted` by `accept_request` of that id while its receiver is logged in. Validity is kept |
| Traces.StepPreservesInv | app.py:82-83 | every route keeps the reachable-state invariant: valid tables, the session naming a user, and every accepted request's receiver naming a user |
| Traces.RunPreservesInv | app.py:47-140 | any sequence of requests keeps that invariant |
| Traces.RunNeverRevokes | app.py:123-137 | over any sequence of requests, no request is removed or re-addressed and no accepted request returns to pending |
| Traces.RunAcceptsOnlyByReceiver | app.py:135-138 | a request pending before a run and accepted after it was named by an `accept_request` served while its receiver was logged in |
| Traces.DashboardResolvesBuddies | app.py:95-99 | in a reachable state with a session the dashboard renders, and every entry of its accepted list is a user row |
| Traces.ReachableDashboardResolves | app.py:91-99 | after any sequence of requests from an empty database that leaves a browser logged in, its dashboard renders and every entry of its accepted list is a user row |
| Traces.SendRequestIdempotent | app.py:120-125 | two identical `send_request` calls give the same state as one |
| Traces.SendThenAccept | app.py:120-138 | with ids inside SQLite's range, after A sends to B, opening the accept link for the new request accepts exactly it when the caller is B and changes nothing for any other caller |
| Scenario.EndToEnd | app.py:52-140 | alice and bob register, alice sends bob a request, bob's dashboard shows it as his only incoming request, bob accepts, and alice's dashboard then lists bob |

## Left out

- Flask routing, `redirect`/`url_for`, `render_template` and the HTML
  templates are presentation. Each response is an `Outcome` tag. The only
  `flash` message kept is the rejected-login flag of `ShowLogin`.
- SQLAlchemy sessions, commits and the SQLite file are left out. Each handler
  is one atomic transition over in-memory sequences. A new row's key past
  SQLite's 64-bit rowid limit is not modelled: SQLite would then pick an
  unused key at random.
- bcrypt is out of scope. `Crypto.hash` and `Crypto.verify` are opaque
  parameters. There is no claim about salting, one-wayness or constant-time
  comparison. flask-bcrypt's own failure on an empty password is not
  modelled.
- The hardcoded secret key, cookie signing and `app.run` are configuration.
  The model has one browser whose session can only be set by `login`.
  Forged or stale cookies from an earlier database are outside it.
- Two concurrent `send_request` calls can both pass the duplicate check.
  Concurrency is out of scope, so `Ledger.NoDuplicatePairs` is proved only
  for sequential runs.
- `static/js/notifications.js` is browser UI code with no state to model.
- The model shows one `ServerError` per failure. The error pages and their
  HTTP details are not modelled.
