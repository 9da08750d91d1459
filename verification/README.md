# Parking lot backend — a Dafny model of its core

The system is a NestJS service on top of a SQLite database accessed through
Drizzle. It runs a residential parking lot. Sections have a capacity.
Tickets come in three kinds:

- DAILY tickets are paid per stay.
- MONTHLY tickets are subscriptions held by a user for one vehicle.
- RESERVED tickets are monthly subscriptions that also own a numbered slot in a section.

Guards check vehicles in and out. A check-out closes the open history row and
computes the fee with a day/night hourly walk. A nightly job deletes the
reservations of expired subscriptions. A monthly job in the transaction
service writes one PENDING transaction per subscription and matched price
row; the application module does not register that service, so the job is
never scheduled as the program stands. Small helpers build the
payment-gateway query string.

The model treats the database as one immutable value, `Schema.Db`, which holds
a sequence of rows per table. Every service call is a pure function from a
`Db` and its inputs to `Reply<T> = Ok(value, db) | Err(error, db)`. The
`Err` case carries the state the database is left in. Time is an integer
count of seconds on the local wall clock (`Calendar.Time`). The calendar
arithmetic behind JavaScript's `Date` getters is modelled exactly, from
day numbers to proleptic Gregorian dates.

Modules, following the services:

- `Types`: roles, ticket kinds and statuses, the caller, the error kinds with their HTTP status codes.
- `Calendar`: civil date/time of an instant and back; whole months between instants.
- `Fee`: `calculatePrice`, i.e. the hourly day/night walk, rounding to cents, the daily floor, and the monthly count.
- `Schema`: the tables, row lookups, the key constraints, and generic sequence helpers (`First`, `Filter`, `Count`, `Sum`).
- `Parking`: `checkIn`, `checkOut`, `getNumberOfAvailableSlots`, `findOrCreateVehicle`.
- `Tickets`: `getAll`, `getById`, `create`, `createDailyTickets`, `update`, `reserve`, `cancel`, and the store invariant they keep.
- `Cron`: `validateReservation`.
- `Sections`: `getAll`, `getById`, `getReservedSlots`, `update`, `report`.
- `Billing`: `createTransaction` as written (`Billing.Run`), a corrected run that prices by vehicle type as well (`Billing.RunCorrected`), paginated `getAll`, `update`.
- `Gateway`: `formatDate` and `privatesortObject`.

Behaviour of the code that the model keeps on purpose:

- A failed check-in can leave the store changed. The vehicle that `findOrCreateVehicle` inserts before the capacity check is not rolled back (`Parking.CheckIn`).
- A failed section update can leave the store changed. The section row is updated before the privilege transaction that may fail (`Sections.Update`).
- Check-in does not compare the plate with the ticket holder's vehicle. It does not look at `validTo` either.
- The nightly sweep deletes a reservation even when its car is parked.
- Cancel does not refuse an INUSE ticket.
- A DAILY stay of zero length costs the full daily base price (`Fee.DailyFloor`).
- Ticket update with neither field, and section update with neither a non-empty name nor a non-zero capacity, reach Drizzle's `set({})`. Drizzle rejects that, which becomes a 500 (`Internal`).
- In `reserve` and `cancel`, a ticket without a holder row makes the destructuring of `[{ ... }]` throw. That is a 500 (`Internal`), not the 404 the message suggests.
- The code reads and writes some data that src/database/schema.ts does not declare. The model follows the code:
  - `user_tickets.validTo`;
  - the status CANCELED;
  - the `transactions` table, with columns id, userId, amount, month, year and status.
- No service writes `validTo`, so it is an `Option`. A missing value behaves as SQL NULL does:
  - it never counts as live for capacity;
  - it never counts as expired for the sweep;
  - check-out reads it through `new Date(null)` as the epoch.

## Model

| member | source | states |
|---|---|---|
| Calendar.ToCivil | src/modules/transaction/transaction.service.ts:21-23 | the civil fields of an instant are a valid date and time that convert back to exactly that instant |
| Calendar.CivilRoundTrip | src/modules/transaction/transaction.service.ts:195-201 | converting valid civil fields to an instant and back returns the same fields |
| Fee.RoundCents | src/modules/parking/parking.service.ts:205 | `Math.round(x*100)/100` is within half a cent of x and a whole number of cents |
| Fee.MonthsCharged | src/modules/parking/parking.service.ts:164-167 | a monthly charge is the number of calendar months between start and end when that is at least one, and one otherwise: max(1, months) |
| Fee.ProratedPrice | src/modules/parking/parking.service.ts:170-206 | the daily price is the hour walk rounded to cents when that is at least the base price, and the base price otherwise |
| Fee.CalculatePrice | src/modules/parking/parking.service.ts:152-207 | fails exactly when the price row is missing (destructuring the empty result throws a TypeError) or its price is zero (`Price not found`); both surface as 500. MONTHLY is base times months charged, others the prorated walk |
| Fee.UnitWalkBounds | src/modules/parking/parking.service.ts:170-203 | per unit of base price the walk costs between hours/24 (all day rate) and hours/16 (all night rate) |
| Fee.WalkScales | src/modules/parking/parking.service.ts:170-203 | the walk is linear in the base price |
| Fee.HourWalkSplit | src/modules/parking/parking.service.ts:178-203 | the walk over a stay is the walk up to any whole hour plus the walk from it |
| Fee.UniformRun | src/modules/parking/parking.service.ts:180-189 | k whole hours at one rate cost k times that rate |
| Fee.DailyFloor | src/modules/parking/parking.service.ts:205-206 | a configured DAILY price succeeds, is at least the base, and equals it for an empty stay |
| Fee.DayNightExample | src/modules/parking/parking.service.ts:170-206 | 08:00 to 20:00 at base 240000 walks 10 day hours and 2 night hours to 130000, then the floor lifts it to 240000 |
| Fee.MonthlyWithinNextMonth | src/modules/parking/parking.service.ts:164-167 | within the same or next calendar month of one year a MONTHLY charge is one base price |
| Schema.TicketByIdUnique | src/database/schema.ts:61-65 | with unique ticket ids the row found by id is the only row with that id |
| Parking.FindOrCreateVehicle | src/modules/parking/parking.service.ts:142-150 | returns the existing vehicle with the plate unchanged, or inserts one with the plate and the given type |
| Parking.FindOrCreateVehicleKeys | src/modules/parking/parking.service.ts:142-150 | keeps plates and ids unique, adds at most one row, and the vehicle is then found by plate and by id |
| Parking.FindOrCreateVehicleIdempotent | src/modules/parking/parking.service.ts:142-150 | a second call with the same plate, whatever the type, returns the same vehicle and changes nothing |
| Parking.AvailableSlots | src/modules/parking/parking.service.ts:110-140 | fails exactly when the section is missing; otherwise capacity minus live reservations minus open non-RESERVED sessions |
| Parking.LiveHoldersIndicator | src/modules/parking/parking.service.ts:116-124 | with one holder per ticket, a reservation contributes one joined row exactly when its ticket is RESERVED and its holder is valid after now |
| Parking.ReservedCountMeaning | src/modules/parking/parking.service.ts:116-124 | the reserved count is the number of the section's reservations of RESERVED tickets whose holder is valid after now |
| Parking.OccupiedCountMeaning | src/modules/parking/parking.service.ts:126-133 | the occupied count is the number of the section's open sessions of non-RESERVED tickets |
| Parking.CheckIn | src/modules/parking/parking.service.ts:15-43 | succeeds exactly when the caller holds the section privilege, the ticket exists and is AVAILABLE, and it is RESERVED or the section has a free slot; 403 without the privilege; success sets INUSE and appends one open session at now |
| Parking.CheckInRespectsCapacity | src/modules/parking/parking.service.ts:29-42 | a non-RESERVED check-in raises occupancy by one and never past the section's capacity |
| Parking.ReservedCheckInKeepsOccupancy | src/modules/parking/parking.service.ts:31-42 | a RESERVED check-in does not change the occupancy counted against capacity |
| Parking.CountsIgnoreStatus | src/modules/parking/parking.service.ts:110-140 | changing a ticket's status does not change the occupancy count |
| Parking.LiveHoldersIgnoreStatus | src/modules/parking/parking.service.ts:116-124 | the live-holder join does not depend on ticket status |
| Parking.OccupiedAppend | src/modules/parking/parking.service.ts:126-133 | appending a session adds one to the occupied count exactly when it is an open non-RESERVED session of the section |
| Parking.AdmitKeepsKeys | src/modules/parking/parking.service.ts:39-42 | the check-in transaction keeps every key constraint |
| Parking.AdmitOccupancy | src/modules/parking/parking.service.ts:39-42 | the check-in transaction adds one to the section's occupancy for a non-RESERVED ticket and nothing for a RESERVED one |
| Parking.AdmitKeepsSessions | src/modules/parking/parking.service.ts:39-42 | on an AVAILABLE ticket the check-in transaction keeps "at most one open session per ticket, and a ticket has an open session exactly when it is INUSE" |
| Parking.AdmitKeepsInUseOpen | src/modules/parking/parking.service.ts:39-42 | after the check-in transaction every INUSE ticket has an open session, the admitted one the session just inserted |
| Parking.CheckInKeepsKeys | src/modules/parking/parking.service.ts:15-43 | check-in, failed or not, keeps every key constraint |
| Parking.CheckInKeepsSessions | src/modules/parking/parking.service.ts:15-43 | check-in, failed or not, keeps "at most one open session per ticket, and a ticket has an open session exactly when it is INUSE" |
| Parking.CheckInKeepsPositiveFees | src/modules/parking/parking.service.ts:39-42 | check-in, failed or not, stores no fee, so every stored fee stays positive |
| Parking.SessionFee | src/modules/parking/parking.service.ts:76-98 | a computed fee is either 0 for a subscription or at least the configured DAILY base price for the vehicle type; DAILY pays the daily price from check-in to now; others fail without a holder, pay 0 up to validTo and the daily price of the overstay after it |
| Parking.CloseSession | src/modules/parking/parking.service.ts:102-105 | afterwards no session with that id is open and each carries the stored fee; no closed session reopens; every other row is kept unchanged |
| Parking.CheckOut | src/modules/parking/parking.service.ts:45-109 | 403 without the privilege; any error leaves the store unchanged; success needs an INUSE ticket, its open session in the section, and a matching plate, then releases the ticket and closes the session |
| Parking.CheckOutKeepsKeys | src/modules/parking/parking.service.ts:45-109 | check-out keeps every key constraint |
| Parking.CheckOutKeepsSessions | src/modules/parking/parking.service.ts:45-109 | with unique session ids (the primary key of history), check-out, failed or not, keeps "at most one open session per ticket, and an open session exactly when INUSE" |
| Parking.CheckOutKeepsPositiveFees | src/modules/parking/parking.service.ts:98-105 | check-out stores a non-positive fee as null, so every stored fee stays positive, as the revenue lemmas require |
| Parking.ReleaseKeepsKeys | src/modules/parking/parking.service.ts:100-105 | the check-out transaction keeps every key constraint |
| Parking.ReleaseKeepsSessions | src/modules/parking/parking.service.ts:100-105 | with unique session ids, closing the ticket's open session and making it AVAILABLE keeps "at most one open session per ticket, and an open session exactly when INUSE" |
| Parking.ReleaseKeepsInUseOpen | src/modules/parking/parking.service.ts:100-105 | after the check-out transaction every ticket still INUSE keeps an open session, because the closed session (found by its unique id) belonged to the released ticket |
| Parking.SecondCheckOutFails | src/modules/parking/parking.service.ts:55-57 | after a check-out the same check-out fails with "ticket is not in use" and changes nothing |
| Parking.SetStatusRestores | src/modules/parking/parking.service.ts:40-101 | setting a status and then setting back the old one restores the ticket table |
| Parking.CheckInCheckOutRestoresTickets | src/modules/parking/parking.service.ts:39-106 | check-in followed by check-out leaves the ticket table as it was |
| Parking.AvailableRoundTrip | src/modules/parking/parking.service.ts:40-101 | marking an AVAILABLE ticket INUSE and then AVAILABLE again restores the ticket table |
| Parking.TicketByIdAfterSetStatus | src/modules/parking/parking.service.ts:40 | after a status update the ticket is found with the new status and otherwise unchanged |
| Parking.CheckOutSucceeds | src/modules/parking/parking.service.ts:45-109 | privilege, INUSE ticket, open session, matching plate and a computable fee together make check-out succeed |
| Parking.AvailableHasNoSession | src/modules/parking/parking.service.ts:25-41 | in a consistent store an AVAILABLE ticket has no open session |
| Parking.AdmitOpensSession | src/modules/parking/parking.service.ts:59-65 | after the check-in transaction the open session found for the ticket and section is the new one |
| Parking.CheckOutAfterAdmit | src/modules/parking/parking.service.ts:45-109 | after the check-in transaction check-out with the same plate succeeds when the daily price and any holder exist |
| Parking.CheckOutAfterCheckIn | src/modules/parking/parking.service.ts:15-109 | in a store that keeps the session discipline and unique plates, a successful check-in can be checked out with the same plate at any later time, provided DAILY prices exist for both vehicle types and a MONTHLY or RESERVED ticket has its holder |
| Parking.HolderFee | src/modules/parking/parking.service.ts:81-104 | a subscription pays 0 (stored as null) up to validTo, and after it the daily price from validTo to now, at least the base |
| Parking.DailyFee | src/modules/parking/parking.service.ts:95-98 | a DAILY check-out charges the prorated daily price from check-in to now, at least the base |
| Tickets.SlotNumbers | src/modules/ticket/ticket.service.ts:78-80 | the valid slot numbers of a section of capacity n are exactly 1..n, n of them |
| Tickets.DistinctSlotsBound | src/database/schema.ts:53-59 | reservations with distinct (section, slot) keys drawn from a slot set are no more than the set |
| Tickets.ReservationsWithinCapacity | src/modules/ticket/ticket.service.ts:187-199 | with the slot key and slot range kept, a section never has more reservations than its capacity |
| Tickets.Create | src/modules/ticket/ticket.service.ts:54-124 | any error changes nothing; DAILY always succeeds; MONTHLY succeeds exactly when user, section and vehicle exist, the slot is absent or in range and the holder key is free; RESERVED exactly when, in addition, the vehicle is a car and a slot is given and free; success adds the holder row, and for RESERVED the reservation |
| Tickets.CreateDailyTickets | src/modules/ticket/ticket.service.ts:126-136 | fails with 400 exactly when amount is not positive; otherwise appends amount new AVAILABLE DAILY tickets and nothing else |
| Tickets.Update | src/modules/ticket/ticket.service.ts:138-149 | succeeds exactly when the ticket exists and at least one field is given; 404 for a missing ticket, 500 with no field; otherwise only that ticket changes, taking each supplied field |
| Tickets.UpdateIdempotent | src/modules/ticket/ticket.service.ts:138-149 | repeating an update returns the same row and changes nothing |
| Tickets.PatchAllFinds | src/modules/ticket/ticket.service.ts:144-148 | after the update statement the lookup by id returns the patched ticket |
| Tickets.PatchAllIdempotent | src/modules/ticket/ticket.service.ts:144-147 | running the update statement twice equals running it once |
| Tickets.Reserve | src/modules/ticket/ticket.service.ts:151-209 | any error changes nothing; it succeeds exactly when there is a holder, the caller is that holder or ADMIN, and the ticket is RESERVED, the vehicle a car, the section exists and the slot is in range and free; success adds exactly that reservation |
| Tickets.SecondReservationRejected | src/modules/ticket/ticket.service.ts:191-199 | a taken slot is never reserved again; once every earlier check passes the answer is 409 |
| Tickets.Unreserve | src/modules/ticket/ticket.service.ts:261-264 | removes exactly the reservations of the ticket in that section |
| Tickets.Cancel | src/modules/ticket/ticket.service.ts:211-268 | any error changes nothing; it succeeds exactly when there is a holder, the caller is that holder or ADMIN, the ticket exists and is not CANCELED, the vehicle and section exist and, for RESERVED, the ticket has a reservation in the section; success marks the ticket CANCELED and, for RESERVED, removes that reservation |
| Tickets.InsertTicketKeepsConsistent | src/modules/ticket/ticket.service.ts:56-58 | inserting a fresh ticket keeps keys and slot ranges |
| Tickets.AddHolderKeepsConsistent | src/modules/ticket/ticket.service.ts:90-96 | adding a holder row with a fresh (user, ticket) key keeps the store consistent |
| Tickets.AddReservationKeepsConsistent | src/modules/ticket/ticket.service.ts:116-121 | adding a reservation on a free slot in range keeps the store consistent |
| Tickets.CreateKeepsConsistent | src/modules/ticket/ticket.service.ts:54-124 | create keeps keys and slot ranges |
| Tickets.ReserveKeepsConsistent | src/modules/ticket/ticket.service.ts:151-209 | reserve keeps keys and slot ranges |
| Tickets.SetStatusKeepsConsistent | src/modules/ticket/ticket.service.ts:244-245 | a status update keeps the store consistent |
| Tickets.UnreserveKeepsConsistent | src/modules/ticket/ticket.service.ts:261-264 | deleting reservations keeps the store consistent |
| Tickets.CancelKeepsConsistent | src/modules/ticket/ticket.service.ts:211-268 | cancel keeps keys and slot ranges |
| Tickets.CreateDailyTicketsKeepsConsistent | src/modules/ticket/ticket.service.ts:126-136 | the batch insert keeps keys and slot ranges |
| Tickets.UpdateKeepsConsistent | src/modules/ticket/ticket.service.ts:138-149 | ticket update keeps keys and slot ranges |
| Tickets.RowsOf | src/modules/ticket/ticket.service.ts:17-20 | a ticket's left-join rows: one per holder, or a single row without holder when it has none |
| Tickets.JoinHoldersMeaning | src/modules/ticket/ticket.service.ts:17-20 | a (ticket, holder) row is in the join exactly when both rows exist and the holder's ticket id matches |
| Tickets.JoinHoldersFirst | src/modules/ticket/ticket.service.ts:43-51 | the first joined row for an id exists exactly when the ticket does, and carries that ticket |
| Tickets.GetAll | src/modules/ticket/ticket.service.ts:16-27 | ADMIN and SECURITY get the whole join; others get exactly the joined rows they hold |
| Tickets.GetAllOwnTickets | src/modules/ticket/ticket.service.ts:22-26 | a user's listing holds a (ticket, holder) row exactly when the user is that holder |
| Tickets.GetById | src/modules/ticket/ticket.service.ts:29-52 | a non-staff caller who does not hold the ticket gets 403; a missing ticket 404; otherwise a joined row of that ticket |
| Cron.ExpiredHolders | src/modules/cron/cron.service.ts:16-18 | a reservation joins some row exactly when its ticket has a holder whose validTo is before now |
| Cron.ExpiredRowsMeaning | src/modules/cron/cron.service.ts:16-18 | an id is selected exactly when a reservation carries it and its ticket is expired |
| Cron.Sweep | src/modules/cron/cron.service.ts:15-33 | only reservations are touched, and only by deletion |
| Cron.SweepRemovesExactlyExpired | src/modules/cron/cron.service.ts:15-33 | a reservation survives exactly when it was there and its ticket is not expired, in every section |
| Cron.SweepNothingExpired | src/modules/cron/cron.service.ts:20-25 | with nothing expired the store is unchanged |
| Cron.SweepIdempotent | src/modules/cron/cron.service.ts:15-33 | a second sweep at the same instant deletes nothing |
| Cron.SweepKeepsConsistent | src/modules/cron/cron.service.ts:27-30 | the sweep keeps keys and slot ranges |
| Sections.GetAll | src/modules/section/section.service.ts:15-25 | ADMIN sees every section; others without privileges get 403, with them exactly their sections |
| Sections.GetById | src/modules/section/section.service.ts:27-34 | 403 exactly without the privilege; otherwise the section with that id, or nothing when none exists |
| Sections.SlotsOf | src/modules/section/section.service.ts:41-44 | one slot per reservation of the section, and a slot is listed exactly when such a reservation has it |
| Sections.GetReservedSlots | src/modules/section/section.service.ts:36-45 | 403 exactly without the privilege; otherwise the section's reserved slots |
| Sections.Regrant | src/modules/section/section.service.ts:67-72 | afterwards exactly the listed users hold the section's privilege; privileges on other sections are untouched |
| Sections.Grants | src/modules/section/section.service.ts:74-79 | one notification per listed user, from the caller, naming the section; a user is notified exactly when listed |
| Sections.Update | src/modules/section/section.service.ts:59-90 | succeeds exactly when a field is given, the name does not clash and, with a user list, the list has no duplicate and the section exists; no field gives 500; a name clash gives 409 with nothing changed; success amends the section and, with a user list, replaces its privileges and notifies each user |
| Sections.UpdateFindsAmended | src/modules/section/section.service.ts:66-82 | the returned section is the one found by id afterwards |
| Sections.AmendFinds | src/modules/section/section.service.ts:66 | after the update statement the lookup by id finds the amended section, and nothing when there was none |
| Sections.UpdateKeepsSectionKeys | src/modules/section/section.service.ts:59-90 | section ids and names stay unique |
| Sections.Report | src/modules/section/section.service.ts:97-119 | 403 exactly without the privilege; otherwise the fee sum over the window, defaulting to the last seven days |
| Sections.RevenueZeroIff | src/modules/section/section.service.ts:112-118 | with positive fees (kept by check-in and check-out: Parking.CheckInKeepsPositiveFees, Parking.CheckOutKeepsPositiveFees) the revenue is non-negative and zero exactly when no fee falls in the window |
| Sections.RevenueMonotone | src/modules/section/section.service.ts:112-116 | with positive fees, widening the window never lowers the revenue |
| Sections.RevenueAppend | src/modules/section/section.service.ts:112-116 | the revenue of two histories together is the sum of their revenues |
| Billing.PriceRowsAsWritten | src/modules/transaction/transaction.service.ts:27 | the join on `ticketPrices.type = tickets.type` matches one price row per vehicle type priced for that ticket type, with that row's price |
| Billing.BillsAsWritten | src/modules/transaction/transaction.service.ts:25-40 | the query as written yields as many bills as there are (user-ticket, matched price row) pairs |
| Billing.BillsAsWrittenMeaning | src/modules/transaction/transaction.service.ts:25-40 | a bill is produced exactly when it carries the run's month and year, the user of some user-ticket and one of the prices matched to that user-ticket's ticket |
| Billing.Run | src/modules/transaction/transaction.service.ts:25-49 | the run as written adds one transaction per (user-ticket, matched price row), keeps the existing rows as a prefix and every other table, and changes nothing when there is no such pair |
| Billing.CreateTransaction | src/modules/transaction/transaction.service.ts:20-50 | the run as written, dated with the calendar month (1..12) and year of now |
| Billing.RunBillsHolders | src/modules/transaction/transaction.service.ts:25-47 | every transaction the run inserts is PENDING, has the next id, is dated with the run, and carries the user of some user-ticket with one of the prices matched to its ticket type |
| Billing.RunInserts | src/modules/transaction/transaction.service.ts:36-47 | inserted row i is bill i - (old count) of the query as written, PENDING, with the next id |
| Billing.RunKeepsTransactionKeys | src/modules/transaction/transaction.service.ts:47 | the run keeps transaction ids unique and below the id counter |
| Billing.BillsOncePerVehicleType | src/modules/transaction/transaction.service.ts:25-47 | as written a MOTORBIKE subscription with MONTHLY prices for both vehicle types gets two bills, one at the car price, and the run inserts two rows; corrected it gets one bill at the motorbike price and one row |
| Billing.Bills | src/modules/transaction/transaction.service.ts:27 | corrected join (see Findings): one bill per user-ticket whose ticket is billable, whose vehicle exists and whose (ticket type, vehicle type) is priced |
| Billing.BillsMeaning | src/modules/transaction/transaction.service.ts:27 | corrected join: a bill is produced exactly when it is the bill of some user-ticket |
| Billing.BillCharges | src/modules/transaction/transaction.service.ts:27 | corrected join: a bill names the holder of a MONTHLY or RESERVED ticket that is neither LOST nor CANCELED and charges the price for that class and the holder's own vehicle type |
| Billing.RunCorrected | src/modules/transaction/transaction.service.ts:27-47 | corrected run: appends one PENDING transaction per user-ticket with a corrected bill and touches nothing else |
| Billing.RunCorrectedBillsHolders | src/modules/transaction/transaction.service.ts:27-47 | corrected run: every inserted row is PENDING, has the next id, is dated with the run, and is the corrected bill of some user-ticket |
| Billing.InsertDesc | src/modules/transaction/transaction.service.ts:58 | inserting into a list sorted by descending id keeps it sorted and adds exactly that row |
| Billing.SortDesc | src/modules/transaction/transaction.service.ts:58 | the listing order is by descending id and a permutation of the rows |
| Billing.Window | src/modules/transaction/transaction.service.ts:59 | limit/offset with SQLite's reading of negatives: the slice from the offset, at most limit rows, order kept |
| Billing.PageCount | src/modules/transaction/transaction.service.ts:74 | no page count for limit 0; for a positive limit the least count of pages that holds every row |
| Billing.Visible | src/modules/transaction/transaction.service.ts:55-70 | ADMIN sees every transaction, others exactly their own |
| Billing.GetAll | src/modules/transaction/transaction.service.ts:52-75 | a page of the caller's visible transactions, newest first, at most limit rows, with the page count |
| Billing.RowOnItsPage | src/modules/transaction/transaction.service.ts:58-59 | with a positive limit, row i of the ordering is row i mod limit of page i div limit + 1 |
| Billing.Update | src/modules/transaction/transaction.service.ts:157-177 | 400 without a truthy amount or a status, 404 for a missing id; otherwise only that row changes, each supplied field replacing the old one |
| Billing.UpdateIdempotent | src/modules/transaction/transaction.service.ts:157-177 | repeating an update succeeds and changes nothing |
| Billing.ReviseAllIdempotent | src/modules/transaction/transaction.service.ts:169-174 | running the update statement twice equals running it once |
| Gateway.Digits | src/modules/transaction/transaction.service.ts:195-201 | decimal digits without a leading zero, one to four of them for numbers below 10000 |
| Gateway.DigitsValue | src/modules/transaction/transaction.service.ts:195-201 | the digits read back as the number |
| Gateway.Pad2 | src/modules/transaction/transaction.service.ts:196-201 | two digits for every number below 100 |
| Gateway.Pad2Value | src/modules/transaction/transaction.service.ts:196-201 | the padded digits read back as the number |
| Gateway.Stamp | src/modules/transaction/transaction.service.ts:203 | fourteen digits for a four-digit year; a negative year starts with a minus sign |
| Gateway.FormatDate | src/modules/transaction/transaction.service.ts:192-203 | a fourteen-digit string for an instant with a four-digit year |
| Gateway.StampFields | src/modules/transaction/transaction.service.ts:203 | year, month, day, hours, minutes and seconds sit at offsets 0, 4, 6, 8, 10 and 12 |
| Gateway.StampRoundTrip | src/modules/transaction/transaction.service.ts:192-203 | parsing the stamp returns the civil fields |
| Gateway.FormatDateRoundTrip | src/modules/transaction/transaction.service.ts:192-203 | the formatted string determines the instant |
| Gateway.ParseDate | src/modules/transaction/transaction.service.ts:192-203 | a string is read as date fields exactly when it is fourteen digits |
| Gateway.Replace20 | src/modules/transaction/transaction.service.ts:212 | the first character becomes '+' when the string starts with "%20", and the result is never longer |
| Gateway.Replace20Complete | src/modules/transaction/transaction.service.ts:212 | no "%20" is left after the global replacement |
| Gateway.Replace20Keeps20 | src/modules/transaction/transaction.service.ts:212 | a replaced string starts with "20" only when the original does |
| Gateway.Restore | src/modules/transaction/transaction.service.ts:212 | a string without '+' is returned unchanged |
| Gateway.Replace20Restore | src/modules/transaction/transaction.service.ts:212 | on a string without '+' the replacement is undone by turning '+' back into "%20" |
| Gateway.LessIrreflexive | src/modules/transaction/transaction.service.ts:207 | no key sorts before itself |
| Gateway.LessTransitive | src/modules/transaction/transaction.service.ts:207 | the sort order, code-point order on characters (which agrees with the UTF-16 code-unit order of `Array.prototype.sort` on the ASCII keys `encodeURIComponent` produces), is transitive |
| Gateway.LessTotal | src/modules/transaction/transaction.service.ts:207 | of two different keys one sorts before the other |
| Gateway.InsertKey | src/modules/transaction/transaction.service.ts:207-212 | inserting into a strictly ascending key list keeps it strictly ascending and adds exactly that key |
| Gateway.SortedKeys | src/modules/transaction/transaction.service.ts:207 | the encoded keys, strictly ascending, exactly those of the object |
| Gateway.Lookup | src/modules/transaction/transaction.service.ts:210-211 | the value under the key, or "undefined" when the key is missing |
| Gateway.SortObject | src/modules/transaction/transaction.service.ts:205-215 | keys strictly ascending, the same key set as the encoded input, each value the encoded original with "%20" turned into "+" |
| Gateway.SortObjectEntries | src/modules/transaction/transaction.service.ts:205-215 | when decoding undoes encoding every original entry appears under its encoded key with its encoded value |

## Left out

- HTTP, authentication, JWT parsing and controllers. The caller arrives as a `Caller` value, and a thrown `HttpException` is an `Err` with its `Error` kind.
- The clock. `new Date()` is a `now: Time` parameter, in seconds of local wall-clock time. Daylight-saving shifts and time zones are not modelled. The millisecond part of an instant is dropped.
- Floating point. Prices and fees are exact reals. `Math.round` is modelled as rounding half up on exact values.
- Fee.HourWalk: its bounds are stated for base price 1 (`Fee.UnitWalkBounds`) and carried to any base by `Fee.WalkScales`, rather than as one bound for a general base.
- The history id is a random UUID in the code; it is a counter in the model. Autoincrement ids are counters too.
- Foreign keys and cascades are not enforced. Lookups that miss follow the code's own null checks.
- Unique constraints are not enforced by the store value. The model states them as `Schema.Keys` and proves that the operations keep them.
- `ticket.service.ts` `getPricing` and `updatePricing`, section `create` and `delete`, transaction `getById`, `delete` and `checkOut`. The last one builds the payment URL with an HMAC-SHA512 signature and environment configuration. These are plain CRUD or cryptography outside the core.
- The users, auth, notification and residence modules. They are not part of this model.
- `encodeURIComponent` and `decodeURIComponent` are function parameters of `Gateway.SortObject`.
- JavaScript's object property order puts integer-like keys first. The model returns the entries in sorted order.
- Billing.Run: the transaction service is not imported by the application module (src/modules/app.module.ts:16-33), so the monthly job never runs as deployed; the model states what it would do if scheduled.
- Billing.Run: the `transactions` table is not declared in the schema, and the model gives it no key besides `id`. `create` reports a constraint failure as "Transaction already exists" (src/modules/transaction/transaction.service.ts:105-106), which hints at a further unique key; under a unique (userId, month, year) the as-written run would fail as a whole where the model inserts two bills.
- The `createTransaction` join has no ORDER BY. The model inserts in user-ticket order, and a user-ticket's price rows CAR before MOTORBIKE.
- Parking.AvailableSlots and Cron.Sweep: `validTo` is assumed to be stored as a `toISOString()` string. The text comparisons against `new Date().toISOString()` (src/modules/parking/parking.service.ts:123 and src/modules/cron/cron.service.ts:18) are modelled as comparisons of instants, which agree with the `new Date(validTo)` parse at check-out (src/modules/parking/parking.service.ts:89) only in that layout. A value in another layout, such as SQLite's `"2025-01-31 23:59:59"`, could count as expired for capacity and the sweep while check-out still treats it as valid.
- Logging is not modelled: the `this.logger.log` calls in the nightly sweep (src/modules/cron/cron.service.ts:21, 31) and in `createTransaction` (src/modules/transaction/transaction.service.ts:43, 48) have no effect on the store.
- A history row with a NULL `ticket_id` is not represented: the column is nullable (src/database/schema.ts:89), but `Schema.Session.ticketId` is an `int`. Every check-in sets it (src/modules/parking/parking.service.ts:40), so the operations modelled here never write such a row. The occupancy inner join at src/modules/parking/parking.service.ts:128 would drop one.
- Sections.Report: string comparison of ISO timestamps is modelled as comparison of instants, and `Number(revenue) || 0` as the exact sum.
- Gateway.FormatDate: the round trip is proved only for four-digit years, where the string has a fixed layout.
- Tickets.Create: only the slot of a creation request may be absent. `userId`, `vehicleId` and `sectionId` are always integers in the model, because what a lookup by an absent id returns depends on the query builder, which is not part of this model.

## Findings

| source | as written | input that shows it | evidently intended | confidence | as-written member | corrected member |
|---|---|---|---|---|---|---|
| src/modules/transaction/transaction.service.ts:27 | prices are joined on the ticket type alone, so every vehicle type priced for that ticket type gives a bill | one MONTHLY user-ticket for a MOTORBIKE, with MONTHLY prices set for both CAR and MOTORBIKE: two bills, one at the car price | one bill per user-ticket, at the price for its own vehicle's type | not executed | Billing.BillsAsWritten (used by Billing.Run and Billing.CreateTransaction; exhibited by Billing.BillsOncePerVehicleType) | Billing.Bills (used by Billing.RunCorrected; Billing.BillsMeaning, Billing.BillCharges, Billing.RunCorrectedBillsHolders) |
