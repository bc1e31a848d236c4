# Appointment booking: slot generation and booking state

A model of the core of a small appointment-booking web app (`app.py`).
The app keeps two tables. `Availability` holds bookable slots: a date, an
`"HH:MM - HH:MM"` time label and a booked flag. `Booking` holds paid
reservations: a customer name plus the date and time of the slot it took.
Bookings and slots are linked only by equal `(date, time)`, not by a
foreign key. An admin session flag gates the admin routes.

The model has five modules:

- `Common` (`common.dfy`): `Option` and a `Distinct` predicate.
- `Clock` (`clock.dfy`): times of day as minutes since midnight. It has the
  `strftime("%H:%M")` rendering and the slot label, each with an inverse that
  reads it back.
- `SlotGenerator` (`slot_generator.dfy`): a specification of the cursor walk in
  `add_availability`. It gives the start times the walk emits and the labels it
  produces.
- `Tables` (`tables.dfy`): the two tables as sequences in id order. It covers
  lookups by id and by `(date, time)`, the dedup insert, flag flips and
  deletions. It also defines the booking invariant: the multiset of
  `(date, time)` of booked slots equals the multiset of `(date, time)` of
  bookings.
- `BookingApp` (`booking_app.dfy`): class `App` holds both tables and the
  `admin_logged_in` flag as fields. Each route is a method that reassigns them.
  `AddAvailability` runs the source's `while` loop over a cursor. Its loop
  invariant ties the table built so far to `InsertSlots` of the labels still
  to come.

Every route keeps the booking invariant and slot uniqueness (`Sound()`).
So in a sequential run of the routes the invariant holds from an empty
database on. Concurrent requests (see "## Left out") and edits made outside
the app can still break it. The most important results:

- Generated slots lie inside `[start, end]`, never start inside the break,
  are pairwise disjoint and increasing, and have distinct labels.
- Without a break, the generator emits `floor((end - start) / len)` slots.
- Running the generator a second time with the same inputs adds nothing.
- The rows appended are exactly the candidate labels that were missing.
- `payment_success` books exactly one slot and appends exactly one
  booking, or changes nothing.
- `delete` on a sound state (consistent, with unique `(date, time)` slots)
  always finds the booking's slot booked.

One might expect no generated slot to overlap the break. The code tests
only a slot's start against the break (app.py:163), so a slot that starts
just before the break can run into it. `SlotGenerator.BreakGuardsOnlyStarts` shows such a
slot (09:45-10:30 against a 10:00-11:00 break). The model proves only that
no slot starts inside the break.

New row ids follow SQLite's rule for an integer primary key: one more than
the largest id in use, or 1 in an empty table. `filter_by(...).first()`
returns the first matching row in table order.

## Model

| member | source | states |
|---|---|---|
| Clock.ParseFormat | app.py:167 | reading back the `%H:%M` text of any time of day gives that time |
| Clock.FormatParse | app.py:167 | any well-formed `HH:MM` text is the rendering of the time it reads as |
| Clock.FormatInjective | app.py:167 | different times of day render to different `HH:MM` text |
| Clock.ParseLabelRoundTrip | app.py:167 | a `"HH:MM - HH:MM"` label reads back to its start and end |
| Clock.LabelParseRoundTrip | app.py:167 | a well-formed label is the label of the pair it reads as |
| Clock.LabelInjective | app.py:167 | different (start, end) pairs give different labels |
| SlotGenerator.SlotStarts | app.py:160-170 | every emitted start `s` has `cursor <= s`, `s + len <= end` (no trailing partial slot) and does not lie in `[break_start, break_end)` |
| SlotGenerator.StartsSpaced | app.py:160-170 | each emitted slot ends no later than the next one starts: slots are disjoint and increasing |
| SlotGenerator.CountWithoutBreak | app.py:160-170 | with no break the walk emits exactly `(end - cursor) / len` slots |
| SlotGenerator.GeneratedLabelsStep | app.py:161-170 | one loop step: past the end nothing remains; in the break the walk resumes at the break's end; a fitting slot emits its label; a partial slot is skipped |
| SlotGenerator.GeneratedLabelsDistinct | app.py:161-170 | the labels of one call are pairwise distinct |
| SlotGenerator.MorningWithBreak | app.py:160-170 | 09:00-12:00, 60-minute slots, break 10:00-11:00 yields exactly `"09:00 - 10:00"` and `"11:00 - 12:00"` |
| SlotGenerator.BreakGuardsOnlyStarts | app.py:163-166 | with 45-minute slots the walk emits 09:45, whose slot runs into the 10:00-11:00 break: only starts are tested |
| SlotGenerator.OverlapStartsBeforeBreak | app.py:163-165 | an emitted slot that overlaps the break starts before the break |
| Tables.FirstWhere | app.py:194 | the result is the first index satisfying the predicate, or none satisfies it |
| Tables.SlotById | app.py:67 | `Availability.query.get(id)` finds a row with that id, or no row has it |
| Tables.BookingById | app.py:192 | `Booking.query.get(id)` finds a booking with that id, or no booking has it |
| Tables.FirstSlotWithKey | app.py:194 | the lookup succeeds exactly when some row has the date and time, and returns the first such row |
| Tables.NextId | app.py:39 | a new id is larger than every id in use and keeps the table in id order |
| Tables.InsertSlotsAppends | app.py:168-169 | existing rows are untouched; every appended row is of the requested day, has a candidate label, and is unbooked |
| Tables.InsertSlotsHasSlot | app.py:168-169 | afterwards a (date, time) exists exactly when it existed before or is a candidate of that day |
| Tables.InsertSlotsUnique | app.py:168-169 | the lookup before insert keeps (date, time) pairs unique |
| Tables.InsertSlotsIds | app.py:169 | inserting keeps the table in id order |
| Tables.InsertSlotsNoop | app.py:168-169 | when every candidate already exists nothing is inserted |
| Tables.InsertSlotsIdempotent | app.py:168-169 | a second call with the same candidates inserts no rows |
| Tables.InsertSlotsExact | app.py:161-169 | with distinct candidates, the appended rows carry exactly the missing candidates, in order |
| Tables.InsertSlotsBookedKeys | app.py:169 | inserting adds no booked slot |
| Tables.BookedKeysHas | app.py:42 | a key is among the booked keys exactly when some booked row has it |
| Tables.BookedKeysAtMostOnce | app.py:168-169 | with unique slots a key is booked at most once |
| Tables.ConsistentMeaning | app.py:100-103 | in a consistent state every booked slot has exactly one booking, and every booking's slot exists and is booked |
| Tables.SetBookedKeys | app.py:101 | flipping one row's flag moves only its key in or out of the booked keys |
| Tables.SetBookedShape | app.py:101 | flipping a flag keeps ids and unique (date, time) pairs |
| Tables.RemoveSlotKeys | app.py:183 | deleting a row removes its key from the booked keys only if it was booked |
| Tables.RemoveSlotShape | app.py:183 | deleting a row keeps the table in id order and its pairs unique |
| Tables.RemoveBookingKeys | app.py:197 | deleting a booking removes exactly one copy of its key and keeps id order |
| Tables.RemoveAt | app.py:183 | the row at the index is gone and the others keep their order |
| Tables.Unbook | app.py:194-196 | exactly the first row with the booking's date and time becomes unbooked; every other field and row is unchanged; with no such row nothing changes |
| Tables.ConfirmKeepsConsistent | app.py:100-103 | booking a free slot and recording a booking with its date and time keeps the tables consistent |
| Tables.CancelTarget | app.py:194-195 | in a sound state the first slot with a booking's date and time exists and is booked |
| Tables.CancelKeepsConsistent | app.py:193-198 | in a sound state, deleting a booking and reverting its slot keeps the tables consistent |
| Tables.WithdrawKeepsConsistent | app.py:182-183 | deleting an unbooked slot keeps the tables consistent |
| BookingApp.App.constructor | app.py:44-45 | the app starts with empty tables, logged out, in a sound state |
| BookingApp.App.AdminLogin | app.py:119-128 | matching credentials set the session flag and redirect to the panel; otherwise the answer is 401 and the flag is unchanged |
| BookingApp.App.AdminLogout | app.py:202-205 | the flag is cleared and the answer redirects home |
| BookingApp.App.CreateCheckoutSession | app.py:63-87 | answers unavailable exactly when the slot is missing or booked, and otherwise starts checkout for that slot's date and time; changes nothing |
| BookingApp.App.PaymentSuccess | app.py:92-103 | a missing or booked slot is refused and nothing changes; otherwise exactly that slot becomes booked and exactly one booking with its date and time is appended; soundness is kept |
| BookingApp.App.AddAvailability | app.py:140-173 | logged out: nothing changes; logged in: the table becomes `InsertSlots` of the generated labels; id order and soundness are kept |
| BookingApp.App.Generate | app.py:160-170 | the cursor loop leaves the table equal to `InsertSlots` of the generated labels, in walk order |
| BookingApp.App.AddIfAbsent | app.py:168-169 | a candidate is appended as a new unbooked row exactly when no row has its date and time |
| BookingApp.App.DeleteAvailability | app.py:177-185 | logged in and the slot exists unbooked: that row is removed and no other row changes; otherwise nothing changes |
| BookingApp.App.DeleteBooking | app.py:188-199 | logged in and the booking exists: it is removed and the first matching slot is unbooked; otherwise nothing changes; soundness is kept |
| BookingApp.IdsUnique | app.py:39 | in id order no two rows share an id |
| BookingApp.UnbookShape | app.py:196 | reverting a slot keeps ids and unique pairs |
| BookingApp.InsertEmitted | app.py:166-169 | a step that emits a slot inserts that slot's label, and what is left to insert is the rest of the walk |
| BookingApp.GenerationAppendsMissing | app.py:160-172 | one generation keeps existing rows and appends unbooked rows of that day carrying exactly the missing generated labels |

## Left out

- Flask routing, templates and session storage are not modelled. The session is the boolean field `adminLoggedIn`.
- The plaintext credential comparison and the environment lookups (app.py:11-29, app.py:124) are not modelled. `AdminLogin` takes the comparison's outcome as a parameter.
- BookingApp.App.constructor: models a fresh database. `db.create_all()` (app.py:44-45) keeps the rows of an existing `bookings.db`; the model starts from empty tables.
- SQLAlchemy/SQLite persistence is modelled as in-memory tables. Commits, autoflush and transaction boundaries are not modelled; a route's effect is treated as one atomic update.
- The Stripe checkout session creation and its error path (app.py:72-89) are not modelled, because they are a call to an external service. `CreateCheckoutSession` returns the product text the session would be created with.
- Sending the admin e-mail (app.py:105-114) is not modelled. It is a call to an external service, and its failures are swallowed.
- Concurrency is not modelled; each route runs to completion before the next starts. Under a threaded server two `payment_success` requests for the same slot can both pass the `is_booked` test (app.py:97) and both append a booking (app.py:100-103), which breaks the booking invariant. The race between checkout and payment confirmation is left out for the same reason.
- Form parsing is not modelled: `strptime` of the date and times, and `int()` of the slot length. Times arrive as valid minute values. A missing `slot_id` or `name` query parameter is not modelled.
- The read-only views are not part of this model: `home`, `index` (the free slots of a date) and `admin_panel`. They only render templates. The GET form of `add_availability` is not modelled either.
- AddAvailability: requires a positive slot length whenever the admin is logged in. With a slot length of zero or less the source's loop does not terminate in general. It does terminate, inserting nothing, on an empty window (`start >= end`) and when the start lies in a break that reaches the end (`break_start <= start < end <= break_end`, app.py:163-165). The model excludes those inputs as well.
- SlotGenerator.SlotStarts: does not claim that emitted slots avoid the break, only that they do not start inside it, because the source tests only the start (see `BreakGuardsOnlyStarts`).
- 1.py, 1.js and static/script.js are not part of this model. They are file I/O, fetch/DOM rendering and a modal toggle.
