# Barber shop scheduling backend: the request handlers, in Dafny

This project models the decision logic of a small scheduling backend in
which clients book hour-long appointments with providers, and providers read
the notifications addressed to them. The logic lives in three controllers:

- `AppointmentController` (`appointments.dfy`): `store` books an appointment
  after a fixed chain of checks. The body must carry `provider_id` and `date`.
  The target must be a provider. The requested instant is truncated to the
  start of its hour, and that slot must not be before now. No non-canceled
  appointment of the provider may sit at the slot. `index` lists the
  requester's non-canceled appointments by date, ten to a page.
- `UserController` (`users.dfy`): `store` registers a user after schema
  validation and an e-mail uniqueness lookup. `update` changes the
  requester's profile after conditional schema rules, a uniqueness lookup
  that runs only when the e-mail changes, and an old-password gate.
- `NotificationController` (`notifications.dfy`): `index` gives a provider
  their ten newest notifications. `update` marks one notification as read.

The relational and document stores become classes holding sequences of
records: `UserTable`, `AppointmentTable` and `NotificationCollection`. Each
handler that writes is a method on its store. Its `ensures` ties the reply
and the new contents to a pure function of the old contents: `Register`,
`UpdateProfile`, `Book`/`BookAsWritten` and `MarkedRead`. The lemmas state
the handler's rules about those functions. Handlers that only read are pure
functions (`List`, `Index`). `queries.dfy` holds the query building blocks
these rely on: a `where` filter, an `order` by an integer key (a sorted
permutation), an `offset`/`limit` window and a lookup by key.
`wrappers.dfy` holds `Option` and `Result`.

Modelling choices:

- Instants are integer milliseconds, and the request's `date` arrives
  already parsed. `startOfHour(t)` is `t - t % 3600000`.
- The clock (`new Date()`) is the parameter `now`. The authenticated user
  (`request.userId`) is the parameter `requester`.
- Yup's e-mail test is the parameter `isEmail`. The bcrypt comparison
  behind `user.checkPassword` is the parameter `checkPassword`.
- The digest that the user model's save hook stores is the parameter
  `passwordHash`. bcrypt salts its digests, so this is a value and not a
  function of the password.
- Yup's `required()` on a string means present and non-empty. `min(6)`
  lets an absent value through but rejects a present shorter one, including
  `""`. The `when` conditions test JavaScript truthiness, which for a
  string means non-empty.
- `user.update(body)` and `User.create(body)` take `name`, `email`,
  `provider` and `password` from the body. A user can therefore make
  themselves a provider by sending `provider`. The stored digest changes
  only when a password is given.
- In `update`, a requester missing from the table makes the source throw
  when it reads `user.email`. The model reports this as `RequesterMissing`
  and changes nothing.
- A page below 1 in `index` makes the offset negative. The database refuses
  a negative offset, and the model reports `NegativeOffset`.
- Notification `update` has no ownership check: any authenticated user can
  mark any notification read. The model keeps this.

Three facts about the code shape the appointment model:

- The three controllers contain no self-booking rejection and no
  cancellation. Booking creates no notification. None of these is modelled.
- `store` checks that the target is a provider before it checks for a past
  date, and `Screen` keeps that order.
- `store` saves the raw submitted date, not the hour slot it checked. This
  is recorded under "## Findings".

## Model

| member | source | states |
|---|---|---|
| Queries.Filter | src/app/controllers/AppointmentController.js:12 | a `where` clause keeps exactly the rows that satisfy it, each as many times as it occurs in the input, and nothing else |
| Queries.SortBy | src/app/controllers/AppointmentController.js:13 | an `order` clause returns a permutation of its input that is sorted by the key |
| Queries.Window | src/app/controllers/AppointmentController.js:15-16 | `offset`/`limit` returns at most `limit` rows, namely those from position `offset` on, and none past the end; no row comes back more often than it occurs in the input |
| Queries.IndexWhere | src/app/controllers/UserController.js:62 | a lookup by key finds the first matching row, and finds none exactly when no row matches |
| UserController.RegisterRejections | src/app/controllers/UserController.js:6-28 | an invalid body (name or e-mail missing, or password shorter than 6), or an e-mail already in the table, answers 400 and leaves the table as it was |
| UserController.RegisterSuccess | src/app/controllers/UserController.js:20-37 | registration succeeds exactly when the body is valid and the e-mail is free; it appends exactly one row and answers only id, name, e-mail and provider flag |
| UserController.RegisterKeepsWellFormed | src/app/controllers/UserController.js:20-30 | registration keeps user ids and e-mails unique |
| UserController.UpdateRejections | src/app/controllers/UserController.js:57-62 | a body that breaks the `update` schema answers 400 with the table unchanged; a requester with no row changes nothing; every failed update leaves the table as it was |
| UserController.UpdateSchemaRules | src/app/controllers/UserController.js:41-59 | `update` needs an e-mail; it needs a password when an old password is given; it needs a confirmation equal to the password when a password is given |
| UserController.UpdateEmailUniqueness | src/app/controllers/UserController.js:64-74 | keeping one's own e-mail never triggers the uniqueness error; taking an e-mail another user holds answers 400 and changes nothing |
| UserController.UpdateOldPasswordGate | src/app/controllers/UserController.js:76-87 | an old password that does not match answers 401 and leaves the table unchanged; with a matching one or none, the update goes through |
| UserController.UpdateChangesOnlyRequester | src/app/controllers/UserController.js:80-87 | a successful update rewrites only the requester's row, and the answer carries the submitted e-mail |
| UserController.UpdateKeepsWellFormed | src/app/controllers/UserController.js:64-80 | `update` keeps user ids and e-mails unique |
| UserController.UserTable.Store | src/app/controllers/UserController.js:5-38 | the handler answers and changes the table as `Register` says, keeps the table invariant, and advances the id counter only on success |
| UserController.UserTable.Update | src/app/controllers/UserController.js:40-88 | the handler answers and changes the table as `UpdateProfile` says, and keeps the table invariant |
| AppointmentController.StartOfHour | src/app/controllers/AppointmentController.js:59 | the checked slot is hour-aligned and satisfies `slot <= date < slot + 1h` |
| AppointmentController.StartOfHourUnique | src/app/controllers/AppointmentController.js:59 | no other hour-aligned instant satisfies those bounds |
| AppointmentController.Screen | src/app/controllers/AppointmentController.js:37-79 | a request that passes every check has both fields, targets a provider, and names a slot that is not in the past and not taken |
| AppointmentController.BookingCheckOrder | src/app/controllers/AppointmentController.js:42-79 | checks run as validation, then provider (401), then past date (400), then availability (400); each earlier check decides whatever the later ones would say |
| AppointmentController.BookingSuccess | src/app/controllers/AppointmentController.js:49-86 | booking succeeds exactly when every check passes, including a slot equal to now; the new row belongs to the requester, names the provider and is not canceled |
| AppointmentController.AsWrittenDiffersOnlyInDate | src/app/controllers/AppointmentController.js:59-86 | the code as written accepts and rejects the same requests as the corrected booking; it only stores the raw date where the corrected booking stores the slot |
| AppointmentController.BookKeepsNoDoubleBooking | src/app/controllers/AppointmentController.js:67-86 | with the slot stored, no two non-canceled appointments ever share a provider and a date |
| AppointmentController.BookKeepsHourAligned | src/app/controllers/AppointmentController.js:59-86 | with the slot stored, every stored date is the start of an hour |
| AppointmentController.AsWrittenDoubleBooks | src/app/controllers/AppointmentController.js:67-86 | as written, the same request sent twice books one provider twice at the same instant |
| AppointmentController.AppointmentTable.StoreAsWritten | src/app/controllers/AppointmentController.js:36-87 | `store` as written: rejections leave the table unchanged, and a success appends exactly one row with the raw date |
| AppointmentController.AppointmentTable.Store | src/app/controllers/AppointmentController.js:36-87 | `store` storing the checked slot: rejections leave the table unchanged, a success appends exactly one row, and no double booking is ever introduced |
| AppointmentController.List | src/app/controllers/AppointmentController.js:9-16 | `index` answers exactly the rows from offset (page-1)*10 on, at most 10 and none past the end; all are the requester's and non-canceled, none more often than it is stored, in ascending date order; it fails only for a page below 1 |
| AppointmentController.EveryActiveAppointmentIsListed | src/app/controllers/AppointmentController.js:11-16 | the k-th non-canceled appointment by date is entry k mod 10 of page k div 10 + 1 |
| AppointmentController.ListDefaultsToFirstPage | src/app/controllers/AppointmentController.js:9 | a missing page means page 1, which is the first ten appointments by date |
| NotificationController.Index | src/app/controllers/NotificationController.js:6-20 | a requester who is not a provider gets 401; a provider gets exactly min(10, n) of their own n notifications, each no more often than it is stored, newest first |
| NotificationController.IndexKeepsMostRecent | src/app/controllers/NotificationController.js:16-20 | any notification of the requester that is left out is no newer than every one returned |
| NotificationController.IndexShowsAllWhenFew | src/app/controllers/NotificationController.js:16-20 | with at most ten notifications addressed to the requester, all of them are returned |
| NotificationController.MarkedRead | src/app/controllers/NotificationController.js:26-30 | marking read sets `read` on the notification with that id and changes no other field and no other notification |
| NotificationController.MarkedReadIdempotent | src/app/controllers/NotificationController.js:28 | marking read twice is the same as marking read once |
| NotificationController.MarkedReadWhenAlreadyRead | src/app/controllers/NotificationController.js:28 | marking an already-read notification leaves the collection identical |
| NotificationController.NotificationCollection.Update | src/app/controllers/NotificationController.js:25-33 | `update` leaves the collection as `MarkedRead` says; it answers the updated document, or nothing when no document has the id |

## Findings

| source | as written | input that shows it | evidently intended | confidence | as-written member | corrected member |
|---|---|---|---|---|---|---|
| src/app/controllers/AppointmentController.js:81-86 | the availability lookup asks for the truncated slot (line 71), but the row is created with the raw submitted `date` (line 84) | provider 1, with `date` = 14:23 submitted twice and `now` earlier: the first row is dated 14:23; the second lookup asks for 14:00 and finds nothing, so a second row at 14:23 is created | the row stores the checked slot, which keeps at most one non-canceled appointment per provider and hour | high, not executed | AppointmentController.AsWrittenDoubleBooks | AppointmentController.BookKeepsNoDoubleBooking |

## Left out

- Yup's e-mail pattern, its type coercion of `provider_id` and `date`, and `schema.isValid` itself: the e-mail test is the parameter `isEmail`, and body fields are typed values that are present or missing.
- `parseISO`: `date` is an already-parsed integer instant. A string that Yup accepts as a date but `parseISO` cannot parse is not modelled.
- bcrypt and the user model's save hook: the model and `user.checkPassword` are not part of this model. The digest and the comparison are parameters.
- The `include`/`attributes` projections of appointment `index` (the provider and avatar join): `List` answers whole appointment rows.
- Time zones: `startOfHour` truncates in local time. The model assumes UTC, or an offset of whole hours.
- Concurrency: requests are sequential. The race between the availability lookup and `Appointment.create` is not modelled.
- Ties in ordering: the database does not fix the order of rows with equal `date` or `createdAt`. The model uses a stable insertion sort.
- EveryActiveAppointmentIsListed: assumes that every page query breaks ties in `date` the same way. The source runs a separate query per page, and the database promises no common order among equal dates across them. A client can hold two appointments at the same date with different providers. When such a tie falls on a page boundary, one of them can appear on two pages and the other on none.
- UserController.MinLength: counts a password's length in characters, while Yup's `min(6)` counts UTF-16 code units. A password with characters outside the Basic Multilingual Plane therefore measures shorter in the model. For example, three emoji are 6 code units and pass the source's schema, but the model rejects them with `ValidationFailed`.
- A `page` that is not a number: `page` is an integer or missing.
- Mongoose's automatic `updatedAt` refresh on `findByIdAndUpdate`, and its error on a malformed id: the notification schema is not part of this model. Ids are integers.
- Express error handling: the status 500 given to `RequesterMissing` stands for an uncaught exception, because no handler for it is part of this model.
- `avatar_id` and any other body field besides name, e-mail, password and provider: the user model's attributes are not part of this model.
- src/app/jobs/CancellationMail.js (mail formatting with date-fns patterns), src/config/multer.js (upload storage) and src/config/mail.js (transport settings): these hold no decision logic.
