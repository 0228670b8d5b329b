# Parking service and dashboard, modelled in Dafny

This project models the bookkeeping core of a parking demo: an Express
server that checks drivers in and out of ten parking slots and assigns one of
five valet robots, its three Mongoose record types, and the React dashboard
that shows the slots, dispatches the robot and checks drivers out with an
optimistic update.

- `wrappers.dfy`: `Option`.
- `text.dfy`: the white-space set of JavaScript's `\s`, `trim`, ASCII
  lowercasing, the email normalisation the user schema applies, and decimal
  rendering and parsing of integers.
- `collections.dfy`: first match (`findOne`), count (`countDocuments`) and
  filter (`find`) over a sequence in collection order.
- `duration.dfy`: the long duration text of the user record
  (`"1 hour 5 minutes"`) and the short one of the admin list (`"1h 5m"`), with
  parsers that read them back.
- `user_model.dfy`, `reservation_model.dfy`, `sensor_event_model.dfy`: the
  three schemas as datatypes with well-formedness predicates, defaults and
  the save step that rejects a record missing a required field; the user
  statics `isSlotAvailable` and `getAvailableRobot`.
- `service.dfy`: the handlers. Check-in and checkout are pure outcome
  functions over the user and reservation collections, and methods of the
  class `ParkingStore` that apply them to its fields. Sensor logging is a
  method that appends an event. Status, stats and the admin list are
  read-only functions. Over the modelled inputs (integer slot ids), the
  store keeps these invariants: emails are unique, every active user holds a
  slot and a robot, and no two active users share either. The open
  reservations mirror the active users one to one only while no reservation
  write fails (`CheckInMirror`, `CheckOutMirror`).
- `dashboard.dfy`: the dashboard's state as the class `Dashboard`, one
  method per handler. Each method is specified by a pure transition on the
  state value `ViewState`. It also holds the check-in form's validation.

Time is an integer count of milliseconds passed in as `now`, so
`Math.floor(ms / 1000 / 60)` is the floor division `ms / 60000`. Record ids
are positions in the store's sequences. A storage failure is the parameter
`fault`. It shows that the user write and the reservation write of check-in
and checkout are not atomic: when the second write fails after the first
landed, the reservations no longer mirror the users (`HalfCheckInBreaksMirror`).

Server replies reach the dashboard as `Ok(body)`, `Rejected(error)` (a
non-ok status with the body's `error` field) or `Unreachable(message)` (a
thrown network or parse error).

Two points where the model reads the code rather than the prose around it:

- Check-in looks the driver up by email. The model looks up the lowercased,
  trimmed address, because Mongoose casts query filters through the schema's
  setters.
- The status loader keeps any JSON body it gets as `systemStatus`, even the
  body of a failed request, before the details loop fails on it
  (App.jsx:337-346).

## Model

| member | source | states |
|---|---|---|
| Text.Trim | server/models/User.js:4-17 | the result has no white space at either end, and an address with no white space is left as it is |
| Text.LowerChar | server/models/User.js:15 | a capital A-Z becomes its own lowercase letter (code point plus 32); every other character is kept; white space, '@' and '.' are neither created nor removed |
| Text.Lower | server/models/User.js:15 | the length is kept and each character is mapped on its own by the letter rule above |
| Text.Utf16Length | server/models/User.js:8-9 | the length JavaScript reports lies between the character count and twice it |
| Text.Utf16LengthIsCount | server/models/User.js:8-9 | the length JavaScript reports equals the character count exactly when no character lies beyond the Basic Multilingual Plane |
| Text.TrimFixedPoints | server/models/User.js:16 | `trim` leaves a string unchanged exactly when it has no white space at either end |
| Text.LowerFixedPoints | server/models/User.js:15 | lowercasing leaves a string unchanged exactly when it has no capital letter |
| Text.NormalizeEmailIdempotent | server/models/User.js:11-17 | normalising an email twice gives the same address as normalising it once |
| Text.NormalizeEmailFixedPoints | server/models/User.js:11-17 | the addresses normalisation leaves unchanged are exactly the lowercase, trimmed ones |
| Text.IntToStringRoundTrip | server/models/User.js:71-73 | a rendered integer parses back to the same integer |
| Collections.FirstWhere | server/models/User.js:77-80 | finds the first element that matches, and finds none exactly when no element matches |
| Collections.Count | server/server.js:253-256 | the count equals the number of matching positions and is at most the length |
| Collections.Filter | server/server.js:218-220 | keeps exactly the matching elements, as many as `Count` gives |
| Collections.Positions | server/server.js:218-220 | the matching positions, each once, in increasing order |
| Collections.FilterAtPositions | server/server.js:218-220 | the filtered list is the input read at the matching positions, so order and repetitions are those of the collection |
| UserModel.SchemaEmailPatternMeaning | server/models/User.js:17 | the scanning check accepts exactly the strings with no white space and an '@' (not first) followed, two or more places later, by a '.' that is not last |
| UserModel.NewUser | server/server.js:64-72 | a new record carries the trimmed name, the lowercased and trimmed email and no vehicle; it is active on the slot with the robot, checked in at `now`, and not checked out |
| UserModel.SessionDuration | server/models/User.js:63-64 | the duration is null exactly when the record has no checkout time |
| UserModel.SessionDurationReadsBack | server/models/User.js:63-74 | a checked-out record's duration reads back as the whole minutes between check-in and checkout |
| UserModel.FindActiveUser | server/models/User.js:77-80 | returns the first active user holding the slot, or nothing exactly when no active user holds it |
| UserModel.IsSlotAvailable | server/models/User.js:77-80 | a slot is available exactly when no active user holds it |
| UserModel.BusyRobots | server/models/User.js:85-88 | the busy robots are exactly those held by an active user |
| UserModel.FreeRobots | server/models/User.js:90-91 | the free list is empty exactly when every robot is busy, and otherwise starts with the first robot that is not busy |
| UserModel.GetAvailableRobot | server/models/User.js:83-92 | null exactly when all five robots are busy; otherwise a robot no active user holds, with every robot before it in R1..R5 busy |
| UserModel.RobotRank | server/models/User.js:84 | each robot id has exactly one position in the list R1..R5 |
| ReservationModel.SaveReservation | server/models/Reservation.js:3-33 | saving fails exactly when userId, slotId or checkInTime is missing; a saved record keeps the given fields, with status active and a null checkout time and duration by default |
| SensorEventModel.SaveSensorEvent | server/models/SensorEvent.js:3-30 | saving fails exactly when slotId or status is missing or the confidence lies outside [0, 1]; a saved event is well formed, with confidence 0.95, type VEHICLE_DETECTED, a null robot and empty metadata by default |
| Duration.LongDurationRoundTrip | server/models/User.js:65-73 | the long text reads back as the whole minutes; the parser accepts "hour" only for one hour and "minute" only for one minute, so the plurals are right |
| Duration.HoursReadBack | server/models/User.js:70-71 | from one hour on, the "H hour[s] M minute[s]" text reads back as the whole minutes |
| Duration.MinutesReadBack | server/models/User.js:73 | below one hour, negative durations included, the "N minute[s]" text reads back as the whole minutes |
| Duration.LongDurationWithHours | server/models/User.js:65-71 | from 60 minutes on, the text is the hours, "hour" or "hours" (singular exactly at 1), the minutes mod 60, then "minute" or "minutes" (singular exactly at 1) |
| Duration.LongDurationMinutesOnly | server/models/User.js:66-73 | below 60 minutes the text is the minute count and "minute" or "minutes", singular exactly at 1, with no hour part |
| Duration.LongDurationSixtyFiveMinutes | server/models/User.js:70-71 | 65 minutes render as "1 hour 5 minutes" |
| Duration.LongDurationSixtyMinutes | server/models/User.js:70-71 | 60 minutes render as "1 hour 0 minutes" |
| Duration.LongDurationTwoHours | server/models/User.js:70-71 | 120 minutes render as "2 hours 0 minutes" |
| Duration.LongDurationMinuteExamples | server/models/User.js:73 | 1 minute renders as "1 minute", 0 as "0 minutes", and a negative duration as "-1 minutes" |
| Duration.ShortDurationRoundTrip | server/server.js:302-310 | the short text reads back as the whole minutes |
| Duration.ShortHoursReadBack | server/server.js:308-309 | from one hour on, "Hh Mm" reads back as the whole minutes |
| Duration.ShortMinutesReadBack | server/server.js:310 | below one hour, "Mm" reads back as the whole minutes |
| Duration.ShortDurationExamples | server/server.js:308-310 | 65 minutes render as "1h 5m", and 59 minutes as "59m" |
| ParkingService.FindUserByEmail | server/server.js:56 | finds a record with the address, or none exactly when no record has it |
| ParkingService.CheckInRefusalOrder | server/server.js:33-62 | 400 exactly when a field is blank or the slot is missing; otherwise 409 exactly when the slot is held; otherwise 503 exactly when every robot is busy; otherwise 409 exactly when the driver's record is active |
| ParkingService.PassedRefusals | server/server.js:33-62 | past every refusal, all three fields are present, the slot is free, a robot is free and the driver is not active |
| ParkingService.Reassigned | server/server.js:73-80 | the reused record takes the trimmed name, the slot, the robot, status active, check-in at `now` and no checkout time; it keeps its email and vehicle and stays normalised |
| ParkingService.PlaceDriver | server/server.js:55-82 | the driver's record is overwritten in place when the email is stored, and appended otherwise; it is active on the slot with the robot, checked in now and not checked out; every other record is unchanged |
| ParkingService.PlaceDriverPlaces | server/server.js:64-80 | the placement writes exactly the driver's record as described for `PlaceDriver` |
| ParkingService.WriteKeepsEmailsUnique | server/models/User.js:14 | writing one record in place or appending a new address keeps emails unique |
| ParkingService.PlacementClaimsSlotAndRobot | server/server.js:40-82 | placing a driver on a free slot with an idle robot keeps the user invariants; afterwards exactly one active user, the driver, holds the slot, and exactly one holds the robot |
| ParkingService.OpenReservation | server/server.js:85-93 | the new reservation is open for the driver's record, on the slot with the robot, checked in now, with no checkout time or duration |
| ParkingService.CheckInKeepsMirror | server/server.js:82-93 | the two check-in writes together keep the reservations mirroring the active users |
| ParkingService.HalfCheckInBreaksMirror | server/server.js:82-93 | the user write alone leaves an active driver with no open reservation |
| ParkingService.CloseReservationSpec | server/server.js:149-156 | only the first open reservation on the slot is completed, with the checkout time and duration; when none is open nothing changes |
| ParkingService.CompletedUser | server/server.js:143-144 | the record becomes completed with checkout time now, and every other field is kept |
| ParkingService.CompletionKeepsUsersValid | server/server.js:143-146 | completing one record keeps every user invariant |
| ParkingService.OpenOnSlotIsHolders | server/server.js:149-150 | every open reservation on a slot belongs to the active user holding it |
| ParkingService.CheckOutKeepsMirror | server/server.js:129-156 | checkout closes exactly the leaving user's open reservation with the exact duration and keeps the mirror |
| ParkingService.EffectiveConfidence | server/server.js:188 | a missing or zero confidence becomes 0.95, and any other value is kept |
| ParkingService.OccupancyDetails | server/server.js:218-231 | there is one detail per active user |
| ParkingService.OccupancyDetailsComplete | server/server.js:225-231 | every active user has its detail in the list |
| ParkingService.OccupancyDetailsSound | server/server.js:225-231 | every detail in the list is the detail of an active user |
| ParkingService.DetailsDistinct | server/server.js:225-231 | in a valid store every detail has a slot and a robot, and no two details share either |
| ParkingService.ActiveCountIsBusyRobots | server/models/User.js:85-88 | there are as many active users as busy robots |
| ParkingService.ActiveWithinFleet | server/models/User.js:83-91 | at most five users are active at once |
| ParkingService.CompletedDurations | server/server.js:259-262 | gives one duration per completed reservation that has one, and only those durations |
| ParkingService.CompletedDurationsInOrder | server/server.js:259-262 | the list is the durations of the completed reservations that have one, read at their positions in collection order, so the average is fixed by the collection |
| ParkingService.RoundedMean | server/server.js:264-279 | the average is 0 for no reservations, and otherwise the integer within half of the mean |
| ParkingService.MeanWithinBounds | server/server.js:264-279 | the rounded mean lies between the least and the greatest duration |
| ParkingService.AdminUsers | server/server.js:294-319 | there is one entry per record, keeping the record; an entry has a duration exactly when its record is checked out; the count equals the number of entries |
| ParkingService.AdminDurationsReadBack | server/server.js:301-310 | every duration in the admin list reads back as that session's whole minutes |
| ParkingService.PlacedSchemaValid | server/models/User.js:4-25 | the placed record passes the schema exactly when the trimmed name is 2 to 50 UTF-16 code units long, the address matches the pattern and the slot lies in 0..99 |
| ParkingService.AdmissionWrites | server/server.js:64-106 | each write either lands or leaves its collection alone, and the reply is 201 exactly when both land |
| ParkingService.AdmissionKeepsValid | server/server.js:64-93 | admitting a driver keeps the user invariants, and every reservation refers to a stored user |
| ParkingService.AdmissionClaims | server/server.js:40-93 | after a 201 the robot was idle before, and exactly one active user, the driver, holds the slot and exactly one the robot |
| ParkingService.AdmissionMirror | server/server.js:82-93 | unless the reservation write fails the mirror is kept; when only that write fails, the mirror is broken |
| ParkingService.AdmissionRecords | server/server.js:64-106 | a 201 reply names the driver's record, the new reservation, the slot, the first free robot and the message; the store holds the placed driver and the appended open reservation |
| ParkingService.CheckInKeepsValid | server/server.js:28-115 | every check-in outcome keeps the user invariants and the reservations' references |
| ParkingService.CheckInRefusalsWriteNothing | server/server.js:33-62 | the 400, 409 and 503 refusals write nothing; a 500 leaves the reservations alone, and the users too unless it was the reservation write that failed |
| ParkingService.CheckInSucceeds | server/server.js:28-115 | check-in succeeds exactly when no refusal applies, the record passes the schema and both writes land |
| ParkingService.CheckInRecords | server/server.js:64-106 | a successful check-in writes exactly the placed driver and one open reservation, and replies 201 with dispatch authorised |
| ParkingService.CheckInClaimsSlotAndRobot | server/server.js:40-93 | after a successful check-in the slot was free and the robot idle; afterwards exactly one active user holds each, the driver |
| ParkingService.CheckInMirror | server/server.js:82-93 | check-in keeps the mirror unless the reservation write fails; when it fails after the user write of an admissible driver, the mirror is broken |
| ParkingService.DepartureWrites | server/server.js:137-168 | the user write, then the reservation update, each either landing or leaving its collection alone; the reply carries the slot, the name, the duration, the message and the dock exactly when both land |
| ParkingService.CloseKeepsRefs | server/server.js:149-156 | closing a reservation keeps every reference to a stored user |
| ParkingService.DepartureKeepsValid | server/server.js:142-156 | the checkout writes keep the user invariants and the references |
| ParkingService.CheckOutKeepsValid | server/server.js:118-177 | every checkout outcome keeps the user invariants and the references |
| ParkingService.CheckOutRefusals | server/server.js:122-135 | 400 exactly when the slot is missing, 404 exactly when no active user holds it, and neither writes anything |
| ParkingService.CompletionReleases | server/server.js:142-146 | completing the slot's holder frees the slot and the holder's robot and keeps every other user |
| ParkingService.DepartureReleases | server/server.js:137-168 | a successful departure releases the slot and robot and replies with the duration of the completed record and the return dock (0, 0.2, 10) |
| ParkingService.CheckOutReleases | server/server.js:118-168 | a successful checkout completes the one active user on the slot at `now`, frees the slot and the robot, and replies with the name, the duration and the dock |
| ParkingService.DepartureMirror | server/server.js:142-156 | unless the reservation write fails, the mirror is kept, and only the leaving user's reservation changes |
| ParkingService.CheckOutMirror | server/server.js:142-156 | unless the reservation write fails, checkout keeps the mirror, changes only the leaving user's reservation and leaves that user none open |
| ParkingService.ParkingStore.CheckIn | server/server.js:28-115 | the new collections and the reply are those of the check-in outcome; the store invariants hold and the events are untouched |
| ParkingService.ParkingStore.CheckOut | server/server.js:118-177 | the new collections and the reply are those of the checkout outcome; the store invariants hold and the events are untouched |
| ParkingService.ParkingStore.RecordSensor | server/server.js:180-210 | an event is logged exactly when there is a slot, a status and an in-range confidence and the write lands; it is VEHICLE_DETECTED exactly for a true status, its confidence falls back to 0.95, and earlier events and the other collections are unchanged |
| ParkingService.ParkingStore.Status | server/server.js:213-248 | ten slots; the occupied count is the number of active users, with one detail for each; the rest are available |
| ParkingService.ParkingStore.StatusWithinFleet | server/server.js:215-231 | in a valid store at most five slots are occupied, and no two details share a slot or a robot |
| ParkingService.ParkingStore.Stats | server/server.js:251-291 | the counts come from the three collections; the 24-hour count is users checked in at or after now minus 86,400,000 ms; the average is 0 when no completed reservation has a duration |
| ParkingService.ParkingStore.AverageWithinDurations | server/server.js:259-279 | the reported average lies between the shortest and the longest recorded duration |
| Dashboard.ErrorText | App.jsx:431-432 | a non-empty error is shown as it is; a missing or empty error gives the default text, so the message shown is never empty |
| Dashboard.FormEmailPatternMeaning | App.jsx:17-18 | the scanning check accepts exactly the strings with no white space, exactly one '@' (not first), and a '.' two or more places after it that is not last |
| Dashboard.ValidateCheckInForm | App.jsx:11-23 | "Please fill in all fields" exactly when a field is empty; otherwise "Invalid email format" exactly when the address fails the pattern; otherwise both fields are submitted unchanged |
| Dashboard.LowerKeepsEmailPattern | server/models/User.js:15-17 | lowercasing keeps an address within the schema's pattern |
| Dashboard.FormEmailPassesSchema | App.jsx:17-22 | an address the form accepts passes the user schema's pattern once lowercased and trimmed |
| Dashboard.SchemaAcceptsWhatFormRefuses | App.jsx:17 | "a@b@c.de" passes the schema's pattern but not the form's |
| Dashboard.SubmittedFormIsComplete | App.jsx:13-16 | a submitted form never draws the server's 400 for missing fields |
| Dashboard.SessionsFromDetailsKeys | App.jsx:342-346 | the map's keys are exactly the details' slots |
| Dashboard.SessionsFromDetailsLastWins | App.jsx:342-346 | a slot shows the last detail listed for it |
| Dashboard.SessionsOfDistinctDetails | App.jsx:342-346 | when no two details share a slot, each detail is shown under its own slot |
| Dashboard.DetailForSlotIffOccupied | server/server.js:218-231 | the details name a slot exactly when an active user holds it |
| Dashboard.RefreshShowsOccupiedSlots | App.jsx:333-346 | after loading a valid store's status, exactly the occupied slots show a session, each showing its holder, and nothing sits under the "null" key |
| Dashboard.Arrive | App.jsx:387-397 | arrival changes only the robot's fields and keeps the dashboard invariant |
| Dashboard.ArrivalSteps | App.jsx:387-397 | DISPATCHING becomes AT_SLOT, keeping the target and slot; RETURNING becomes DOCKED, clearing both; otherwise nothing changes, so the per-frame callback is idempotent |
| Dashboard.ClickSlot | App.jsx:400-416 | a click at the slot's drawn position keeps the dashboard invariant |
| Dashboard.ClickSlotSteps | App.jsx:400-416 | clicking an occupied slot changes nothing; clicking a free one opens the modal for that slot and its position and clears the error, leaving the sessions and the robot alone |
| Dashboard.ModalClosed | App.jsx:593 | cancelling closes the modal and keeps the invariant |
| Dashboard.CheckInAnswered | App.jsx:418-462 | handling the check-in reply keeps the invariant and ends with loading off |
| Dashboard.CheckInDispatches | App.jsx:435-452 | an authorised check-in adds a session for the selected slot, keeps the other sessions, sets DISPATCHING with that slot and its position as target, closes the modal and clears the selection |
| Dashboard.CheckInFailureOnlyReports | App.jsx:431-457 | a refused or failed check-in only sets a non-empty error; sessions, robot and modal are unchanged |
| Dashboard.CheckInThenArrival | App.jsx:435-452 | the robot sent by a check-in arrives AT_SLOT at the slot it was sent to |
| Dashboard.CheckOutStarted | App.jsx:464-481 | the guard and the optimistic removal keep the invariant |
| Dashboard.CheckOutAnswered | App.jsx:483-525 | handling the checkout reply keeps the invariant and ends with loading off |
| Dashboard.CheckOutHandled | App.jsx:464-525 | the whole checkout handler keeps the invariant |
| Dashboard.CheckOutWaitsForRobot | App.jsx:467-471 | while the robot heads for that slot, checkout sets only the wait message; sessions, robot and loading are unchanged and no request is made |
| Dashboard.CheckOutRemovesAtOnce | App.jsx:473-479 | the slot's session leaves the map before the request, every other session stays, and loading is on |
| Dashboard.CheckOutRollsBack | App.jsx:514-520 | a refused or failed checkout restores exactly the sessions from before the call and sets a "Checkout failed: " error; nothing else changes but loading |
| Dashboard.CheckOutSendsRobotHome | App.jsx:497-509 | a reply with a dock sets the dock as target, RETURNING, and the slot as previous slot; the slot's session is gone |
| Dashboard.CheckOutThenArrival | App.jsx:391-395 | after a checkout with the server's dock, the robot's arrival docks it with no target or slot |
| Dashboard.Refresh | App.jsx:333-352 | loading the status never moves the robot and keeps the invariant |
| Dashboard.RefreshFromStore | App.jsx:333-346 | after loading a valid store's status, the slots with a session are exactly the occupied ones, and the robot is untouched |
| Dashboard.Dashboard.constructor | App.jsx:321-330 | the initial state: docked, no target, no slot, no modal, no sessions, no status, no error, not loading |
| Dashboard.Dashboard.RobotArrived | App.jsx:387-397 | the new state is the arrival transition of the old one, and the invariant holds |
| Dashboard.Dashboard.SlotClicked | App.jsx:400-416 | the new state is the click transition of the old one |
| Dashboard.Dashboard.CancelCheckIn | App.jsx:593 | the new state is the old one with the modal closed |
| Dashboard.Dashboard.SubmitCheckIn | App.jsx:418-462 | sends the typed name and email with the selected slot; the new state is the check-in transition of the old one |
| Dashboard.Dashboard.Dispatch | App.jsx:435-452 | the authorised check-in's updates: the session, DISPATCHING, the slot and its position, the modal closed |
| Dashboard.Dashboard.BeginCheckOut | App.jsx:464-481 | the snapshot is taken exactly when the guard lets the checkout through, and it is the sessions from before the removal |
| Dashboard.Dashboard.FinishCheckOut | App.jsx:483-525 | the new state is the reply transition of the old one |
| Dashboard.Dashboard.CheckOut | App.jsx:464-525 | the new state is the checkout transition of the old one |
| Dashboard.Dashboard.ApplyStatus | App.jsx:333-352 | the loop rebuilds the sessions map detail by detail into the map the refresh transition describes |

## Left out

- Robot motion: the per-frame interpolation, the `Math.sqrt` distance and the 0.1 threshold (App.jsx:205-221). Arrival is an event the dashboard receives.
- Rendering: the 3D scene, markup, styles, the status overlay and the robot colours (`getRobotColor`). These have no state to model.
- The network: `fetch`, Express routing, CORS, the database connection, `app.listen`, console output and the webhook post in `handleSensorEvent`. The model works at the level of requests and replies.
- Route names: the client posts to `/check-in` while the server listens on `/api/checkin`, so as shipped the client's check-in request is not routed to the handler. The model pairs the two directly.
- The status refetch in the `finally` blocks of check-in and checkout is not chained: it is a separate `ApplyStatus` event.
- The `setTimeout` calls that clear error messages after 3 and 5 seconds are not modelled: time on the client is not modelled.
- Concurrency: the read-then-write races on slot and robot availability, and interleaved async handlers. The model is sequential.
- The Mongoose query engine and indexes are replaced by sequences in collection order. Email uniqueness is a stated invariant, not enforcement by an index.
- The admin list's sort by check-in time, newest first, is not modelled; the list keeps the order of its input.
- ISO date strings, `Date` objects, ObjectIds and the `timestamps` fields: times are integer milliseconds and ids are positions.
- CheckInOutcome, CheckOutOutcome: the request's slot id is a missing-or-integer input, so a JSON `null` or a fractional number such as 3.5 cannot be expressed. The source tests only `slotId === undefined` (server/server.js:33, server/server.js:122). At check-in a `null` slot passes that test. `isSlotAvailable(null)` then finds no active holder, a robot is taken, and the user is saved active with a null slot, which the user schema allows (server/models/User.js:19-25). The reservation save then fails on its required slot (server/models/Reservation.js:9-12), so the reply is 500 with the user write left behind. The store then holds an active user with a robot and no slot, which breaks the invariant `CheckInKeepsValid` proves over the modelled inputs. At checkout a `null` slot gets a 404, not the 400 the model gives to a missing slot. A fractional slot id passes every check and is stored.
- The `details` text of 500 replies is dropped. `SensorMetadata` leaves out a key whose value is missing, as JSON serialisation drops `undefined` fields. Reads that fail are not modelled: only the three writes take a `fault`.
- Non-ASCII case mapping in `toLowerCase` is left out: only A-Z are lowercased.
- Confidences and positions are `real`, not IEEE doubles.
- The `vehicleInfo` sub-document is carried along but never written.
- ParkingService.ParkingStore.CheckIn: the method assigns the outcome of `CheckInOutcome` in one step rather than writing field by field; the early returns are in the outcome function.
- Dashboard.Dashboard.SlotClicked: requires the position to be the one the slot is drawn at, as the rendering passes it (App.jsx:561-566).
