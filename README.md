# Animal-counting backend: a Dafny model

This project models the core of the Flask backend of an animal-counting system.
Field devices (Raspberry Pi units with a presence sensor) post count events and
heartbeats. Human operators register, log in and read dashboards. The model
covers three parts of `backend/app.py`:

- **Users and sessions.** `register` adds a user whose password is stored
  hashed. `login` issues a JWT carrying the username and an expiry 24 hours
  ahead. The `token_required` decorator admits a request only when its
  `Authorization` header carries a live token whose username still exists.
  The hashing library is an ideal salted hash (`Credentials.Hash`,
  `Credentials.CheckHash`). The JWT library is a parameter, `Sessions.TokenCodec`.
  All the model asks of it (`Sessions.ValidCodec`) is that an encoded token
  decodes back to its claims and contains no space.
- **Device registry.** `Service.Backend.devices` is a `map` from device id to
  device row. It is updated in place by `register_device`, `device_heartbeat`
  and `delete_device`.
- **Count log and aggregation.** `Service.Backend.counts` is the append-only
  log, as a sequence in insertion order. The read routes are functions over
  it in module `CountLog`: filters over time windows, sums of the `count`
  field, and an ordering newest first.

Modules: `Common` (request fields, replies, error kinds and their HTTP status,
clock constants), `Credentials`, `Sessions`, `Devices`, `CountLog`, and
`Service`, which holds the class `Backend`. The routes that write are methods
of `Backend` with `modifies` clauses. Each of them takes a `storageFails` flag:
when it is set, the commit fails, the write is rolled back and the route answers
`StorageFailure` (HTTP 500).

Time is one integer clock counting seconds. The source stamps rows with
`datetime.utcnow()` (`backend/app.py:38`, `backend/app.py:292`) but computes
the "today", week and month bounds from the local `datetime.now()`
(`backend/app.py:173`, `backend/app.py:193`). The model uses one clock for
both, so it assumes the server runs in UTC. On a server in any other zone the
windows are shifted by the zone offset. `CountLog.TodayAgreesWithStats` shows
the two "today" figures agree whenever no record is stamped later than `now`.
They can differ once a record is stamped after the end of the day: a single
such record with a non-zero count makes them differ
(`CountLog.TodayDisagreesWithStats`), because
`get_today_counts` bounds the day at midnight and `get_stats` leaves it open.
Stamps that run ahead of the local clock are exactly what the offset produces
on a server west of UTC.

## Model

| member | source | states |
|---|---|---|
| `Credentials.CheckHashExact` | backend/app.py:137 | a password checks against its own salted hash and no other password does |
| `Credentials.NewUser` | backend/app.py:114-115 | the new user row has the given username and creation time, and its stored hash accepts exactly the registered password |
| `Sessions.Split` | backend/app.py:85 | `split(' ')` yields at least one field, and no field contains a space |
| `Sessions.JoinSplit` | backend/app.py:85 | joining the fields of `split(' ')` with single spaces gives back the header, so no character is lost or added |
| `Sessions.SplitNoSpace` | backend/app.py:85 | a string without spaces splits into itself alone |
| `Sessions.SplitFirstSpace` | backend/app.py:85 | splitting `a + " " + b`, with `a` free of spaces, gives `a` followed by the fields of `b` |
| `Sessions.SplitJoin` | backend/app.py:85 | splitting undoes joining for fields without spaces |
| `Sessions.BearerToken` | backend/app.py:79-85 | an absent or empty header is `MissingToken`, and nothing else is; a present header is accepted exactly when `split(' ')` gives it a second field, and otherwise is `InvalidToken`; the token taken out is that second field and contains no space |
| `Sessions.SchemeAndToken` | backend/app.py:85 | any scheme word, one space, then a token yields that token; the scheme is not checked |
| `Sessions.Login` | backend/app.py:125-149 | `MissingCredentials` exactly when a field is absent or empty; the same `InvalidCredentials` exactly when the username is unknown or the password fails its check; success exactly when both fields are present, the user exists and the password checks; on success the reply names the caller and, under a codec that round-trips, its token decodes to the caller's username with expiry exactly issuance time + 24 h; every refusal is a 400 or a 401 |
| `Sessions.Authenticate` | backend/app.py:79-95 | every refusal of the guard is a 401; an admitted request had a header, and the handler runs with a user of the store |
| `Sessions.AuthenticateAccepts` | backend/app.py:79-95 | the guard admits with user `u` if and only if the header has a second field, that field decodes to claims, the claims have not expired, and their username resolves to `u` |
| `Sessions.LoginThenAuthenticate` | backend/app.py:137-143 | a token from `login`, sent after any scheme word, admits its user until 24 h after issuance, and from then on is refused as `InvalidToken` |
| `Sessions.RegisterLoginVerify` | backend/app.py:114-143 | after a user is registered, login succeeds exactly with the registered password, and the token it issues admits that username for the next 24 h |
| `Devices.NewDevice` | backend/app.py:262-271 | the new device row has the generated id, the given name and location or the defaults `Raspberry Pi` / `Não especificado`, status `ativo`, and registration and last-seen times equal to now |
| `CountLog.NewCount` | backend/app.py:223-232 | the new record has the given fields or the defaults `unknown`, 0 and `desconhecido`, and a timestamp equal to the server's now |
| `CountLog.Select` | backend/app.py:202-209 | a window's selection is never longer than the log it filters |
| `CountLog.SelectMembers` | backend/app.py:202-209 | a window's selection holds exactly the log's records whose timestamp lies in the window |
| `CountLog.SumAppend` | backend/app.py:200 | the sum of a concatenation is the sum of the parts |
| `CountLog.SelectAppend` | backend/app.py:202-209 | after appending a record, a window's selection grows by that record exactly when the window holds its timestamp |
| `CountLog.SinceMonotone` | backend/app.py:202-209 | with non-negative counts, a window sum lies between 0 and the all-time total, and a later lower bound never gives a larger sum |
| `CountLog.NewestFirstOrdered` | backend/app.py:164 | in a newest-first list every record is at least as recent as every record after it |
| `CountLog.InsertNewest` | backend/app.py:164 | inserting a record lengthens the list by exactly one |
| `CountLog.InsertNewestContents` | backend/app.py:164 | inserting a record adds exactly that record to the list's multiset and its count to the sum |
| `CountLog.InsertNewestOrdered` | backend/app.py:164 | inserting a record into a newest-first list keeps it newest first, and the new head is the record or the old head |
| `CountLog.SortNewest` | backend/app.py:164 | `order_by(timestamp.desc())` gives a newest-first permutation of the log with the same sum |
| `CountLog.AllCounts` | backend/app.py:163-168 | `get_counts` answers every record exactly once, newest first, and `total` is the number of records |
| `CountLog.DayStart` | backend/app.py:173-174 | the start of the day is a midnight (a multiple of 86400 s) at or before now and less than a day before it |
| `CountLog.TodayCounts` | backend/app.py:173-188 | `get_today_counts` answers exactly the records stamped within now's calendar day, newest first; `total_today` is the sum of the answered records and `records` their number |
| `CountLog.StatsNested` | backend/app.py:193-216 | with non-negative counts, `0 <= today <= this_week <= this_month <= total_animals` |
| `CountLog.StatsAppend` | backend/app.py:199-216 | appending a record adds 1 to `total_records`, adds its count to `total_animals`, and adds it to each window exactly when the record's timestamp is at or after that window's bound |
| `CountLog.StatsAppendNow` | backend/app.py:199-216 | a record stamped at now adds its count to `today`, `this_week`, `this_month` and `total_animals` alike |
| `CountLog.TodayAgreesWithStats` | backend/app.py:177-203 | when no record is stamped after now, `total_today` equals the `today` figure of `get_stats`, and `records` is the size of the stats route's today selection |
| `CountLog.TodayDisagreesWithStats` | backend/app.py:177-203 | a record stamped at the next midnight adds nothing to `total_today` but its whole count to the stats route's `today` |
| `CountLog.SameSelection` | backend/app.py:177-180 | when no record is stamped after now, the bounded today window selects the same records as the open-ended one |
| `CountLog.StatsExample` | backend/app.py:193-216 | records at now, 2, 10 and 40 days ago with counts 1, 2, 4, 8 give today 1, this week 3, this month 7, total 15 over 4 records |
| `Service.Backend.constructor` | backend/app.py:69-72 | a fresh store has no users, devices or counts |
| `Service.Backend.Register` | backend/app.py:101-123 | absent or empty field gives 400 and no change; a taken username gives 400 and no change; otherwise exactly one user is added, holding the hash of the password, unless the commit fails, in which case nothing changes; usernames stay keys of the table |
| `Service.Backend.VerifyRoute` | backend/app.py:151-157 | answers the guard's refusal, or the admitted caller's username, which is a registered one |
| `Service.Backend.AddCount` | backend/app.py:219-244 | without authentication and without any check on the device id, appends exactly one record with the body's fields or defaults and timestamp now; a failed commit, an id collision or a count outside SQLite's signed 64-bit INTEGER range appends nothing and answers 500 |
| `Service.Backend.GetCounts` | backend/app.py:161-168 | behind the guard, answers a newest-first permutation of the whole log and its length |
| `Service.Backend.GetTodayCounts` | backend/app.py:170-188 | behind the guard, answers exactly the records of now's calendar day, each as often as in the log, newest first, with their sum and number |
| `Service.Backend.GetStats` | backend/app.py:190-217 | behind the guard, answers the totals and the window sums of the log; with non-negative counts the windows nest |
| `Service.Backend.GetDevices` | backend/app.py:248-255 | behind the guard, answers every registered device exactly once, as stored, and `total` equals the number of devices |
| `Service.Backend.RegisterDevice` | backend/app.py:257-283 | behind the guard, adds exactly one device under the fresh id with the defaults and status `ativo`; a failed commit or a colliding id adds nothing |
| `Service.Backend.Heartbeat` | backend/app.py:285-300 | without authentication; an unknown id gives 404 and no change; otherwise that device's last-seen becomes now and its status `ativo`, and every other device and field is unchanged |
| `Service.Backend.DeleteDevice` | backend/app.py:302-316 | behind the guard; an unknown id gives 404; otherwise exactly that device is removed; the count log is never touched |

## Left out

- HTTP framing is not modelled: Flask routing, CORS, JSON parsing and message texts. Each route answers a `Reply`, whose error kinds map to status codes through `Common.Status`. The `'error': str(e)` details of 500 answers are dropped.
- JSON bodies are modelled as optional fields (`None` when the key is absent). JSON `null`, values of the wrong type and a missing body (`get_json()` returning `None`) are not modelled.
- The `/api/test` route (`backend/app.py:320-325`) is left out, since it only reports that the server is up.
- SQLAlchemy sessions are not modelled beyond one `storageFails` flag per write. A failure on a read route (an unhandled 500) is not modelled. `init_db` is modelled only as a constructor with empty tables.
- Password hashing is an ideal salted hash: one-wayness and hash collisions are not modelled.
- JWT HS256 signing is the `TokenCodec` parameter, promised only its round trip. Tokens signed with another key, forged tokens and tokens without an `exp` claim are whatever the codec decodes them to. Expiry follows PyJWT: a token is refused once `exp <= now`.
- UUID generation is a parameter of `AddCount` and `RegisterDevice`. A collision with a stored id is answered like any failed commit: a 500, with nothing written.
- The integer primary key of `User`, the `to_dict` serialisers and the declared column lengths are not modelled. SQLite does not enforce the lengths.
- Time is one integer clock in whole seconds. Sub-second precision, time zones and the UTC vs local mismatch described above are not modelled. `CountLog.DayStart` takes midnight in the clock's own zone.
- Concurrency is not modelled: two `register` calls racing for one username, and the four scans of `get_stats` running against different snapshots.
- Rows with equal timestamps keep their log order under `order_by(Count.timestamp.desc())`. SQL leaves that order unspecified.
- The order of the devices answered by `get_devices` is left open, because `Device.query.all()` promises none.
- No route ever sets a device to any status other than `ativo`, so the model has no liveness sweep. `lastSeen` follows the clock, so it only moves forward when the clock does.
- `backend/raspberry_counter.py`, `backend/manage_db.py` and `login_sistema_of/src/App.js` are not part of this model. They are GPIO and network I/O, an administrative CLI and the React dashboard.
