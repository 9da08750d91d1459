/** Check-in, check-out and capacity accounting
    (src/modules/parking/parking.service.ts). Each call takes the store and
    returns a Reply; `now` is the wall-clock instant of the request. */
module Parking {
  import opened Types
  import opened Calendar
  import opened Fee
  import opened Schema

  // ---- findOrCreateVehicle ----

  /** The vehicle with `plate`, inserted with `vtype` when the plate is new.
      The insert is a statement of its own, outside any transaction. */
  function FindOrCreateVehicle(db: Db, plate: string, vtype: VehicleType): (r: (Vehicle, Db))
    ensures r.0.plate == plate
    ensures VehicleByPlate(db, plate).Some? ==> r.0 == VehicleByPlate(db, plate).value && r.1 == db
    ensures VehicleByPlate(db, plate).None? ==>
      && r.0.vtype == vtype
      && r.1 == db.(vehicles := db.vehicles + [r.0], nextVehicleId := db.nextVehicleId + 1)
  {
    match VehicleByPlate(db, plate)
    case Some(v) => (v, db)
    case None =>
      var v := Vehicle(db.nextVehicleId, plate, vtype);
      (v, db.(vehicles := db.vehicles + [v], nextVehicleId := db.nextVehicleId + 1))
  }

  /** Plates stay unique, and the returned vehicle is the one the plate now
      finds; the type argument is ignored for a known plate. */
  lemma FindOrCreateVehicleKeys(db: Db, plate: string, vtype: VehicleType)
    requires VehicleKeys(db)
    ensures var (v, db') := FindOrCreateVehicle(db, plate, vtype);
      && VehicleKeys(db')
      && VehicleByPlate(db', plate) == Some(v)
      && VehicleById(db', v.id) == Some(v)
      && |db'.vehicles| <= |db.vehicles| + 1
  {
    if VehicleByPlate(db, plate).None? {
      InsertVehicleKeys(db, plate, vtype);
    } else {
      KnownVehicleKeys(db, plate);
    }
  }

  /** A new plate gets a fresh id and is found by both keys. */
  lemma InsertVehicleKeys(db: Db, plate: string, vtype: VehicleType)
    requires VehicleKeys(db) && VehicleByPlate(db, plate).None?
    ensures var v := Vehicle(db.nextVehicleId, plate, vtype);
      var db' := db.(vehicles := db.vehicles + [v], nextVehicleId := db.nextVehicleId + 1);
      && VehicleKeys(db')
      && VehicleByPlate(db', plate) == Some(v)
      && VehicleById(db', v.id) == Some(v)
  {
    var v := Vehicle(db.nextVehicleId, plate, vtype);
    var vs := db.vehicles + [v];
    var db' := db.(vehicles := vs, nextVehicleId := db.nextVehicleId + 1);
    assert forall i | 0 <= i < |db.vehicles| :: vs[i] == db.vehicles[i] && vs[i].plate != plate && vs[i].id < v.id;
    assert VehicleKeys(db');
    FirstAppend(db.vehicles, v, (x: Vehicle) => x.plate == plate);
    FirstAppend(db.vehicles, v, (x: Vehicle) => x.id == v.id);
  }

  /** A known plate's vehicle is the only row with its id. */
  lemma KnownVehicleKeys(db: Db, plate: string)
    requires VehicleKeys(db) && VehicleByPlate(db, plate).Some?
    ensures VehicleById(db, VehicleByPlate(db, plate).value.id) == VehicleByPlate(db, plate)
  {
    var v := VehicleByPlate(db, plate).value;
    var vs := db.vehicles;
    var k :| 0 <= k < |vs| && vs[k] == v;
    assert forall i | 0 <= i < |vs| && vs[i].id == v.id :: i == k;
  }

  /** Looking the same plate up again finds the same vehicle and inserts nothing. */
  lemma FindOrCreateVehicleIdempotent(db: Db, plate: string, vtype: VehicleType, vtype': VehicleType)
    requires VehicleKeys(db)
    ensures var (v, db') := FindOrCreateVehicle(db, plate, vtype);
      FindOrCreateVehicle(db', plate, vtype') == (v, db')
  {
    FindOrCreateVehicleKeys(db, plate, vtype);
  }

  // ---- getNumberOfAvailableSlots ----

  /** Rows of the join user_tickets x tickets that make a reservation of
      `ticketId` count: a holder still valid at `now` of a RESERVED ticket. */
  function LiveHolders(userTickets: seq<UserTicket>, tickets: seq<Ticket>, ticketId: int, now: Time): nat
  {
    Sum(userTickets, (u: UserTicket) =>
      if u.ticketId == ticketId && u.ValidAfter(now)
      then Count(tickets, (t: Ticket) => t.id == u.ticketId && t.ttype == Reserved)
      else 0)
  }

  /** `reservedCount`: the row count of reservations of the section joined
      with their live holders and RESERVED tickets. */
  function ReservedCount(reservations: seq<Reservation>, userTickets: seq<UserTicket>, tickets: seq<Ticket>, sectionId: int, now: Time): nat
  {
    Sum(reservations, (r: Reservation) =>
      if r.sectionId == sectionId then LiveHolders(userTickets, tickets, r.ticketId, now) else 0)
  }

  /** `occupiedCount`: open sessions of the section joined with their
      tickets, keeping the non-RESERVED ones. */
  function OccupiedCount(history: seq<Session>, tickets: seq<Ticket>, sectionId: int): nat
  {
    Sum(history, (h: Session) =>
      if h.sectionId == sectionId && h.Open()
      then Count(tickets, (t: Ticket) => t.id == h.ticketId && t.ttype != Reserved)
      else 0)
  }

  /** `capacity - reservedCount - occupiedCount`; a missing section makes the
      destructuring throw, which surfaces as a 500. */
  function AvailableSlots(db: Db, sectionId: int, now: Time): (r: Result<int>)
    ensures r.Failure? <==> SectionById(db, sectionId).None?
    ensures r.Failure? ==> r.error == SlotCountFailed
    ensures r.Success? ==>
      r.value == SectionById(db, sectionId).value.capacity
        - ReservedCount(db.reservations, db.userTickets, db.tickets, sectionId, now)
        - OccupiedCount(db.history, db.tickets, sectionId)
  {
    match SectionById(db, sectionId)
    case None => Failure(SlotCountFailed)
    case Some(section) =>
      Success(section.capacity
        - ReservedCount(db.reservations, db.userTickets, db.tickets, sectionId, now)
        - OccupiedCount(db.history, db.tickets, sectionId))
  }

  predicate IsReservedTicket(tickets: seq<Ticket>, id: int)
  {
    exists k | 0 <= k < |tickets| :: tickets[k].id == id && tickets[k].ttype == Reserved
  }

  predicate IsOtherTicket(tickets: seq<Ticket>, id: int)
  {
    exists k | 0 <= k < |tickets| :: tickets[k].id == id && tickets[k].ttype != Reserved
  }

  /** A reservation that holds a slot at `now`: its ticket is RESERVED and
      some holder of it is still valid. */
  predicate LiveReservation(userTickets: seq<UserTicket>, tickets: seq<Ticket>, r: Reservation, now: Time)
  {
    && IsReservedTicket(tickets, r.ticketId)
    && exists i | 0 <= i < |userTickets| :: userTickets[i].ticketId == r.ticketId && userTickets[i].ValidAfter(now)
  }

  /** Every ticket has at most one holder. */
  predicate SingleHolder(userTickets: seq<UserTicket>)
  {
    forall i, j | 0 <= i < j < |userTickets| :: userTickets[i].ticketId != userTickets[j].ticketId
  }

  lemma ReservedMatchCount(tickets: seq<Ticket>, id: int)
    requires UniqueTicketIds(tickets)
    ensures Count(tickets, (t: Ticket) => t.id == id && t.ttype == Reserved)
      == if IsReservedTicket(tickets, id) then 1 else 0
  {
    CountAtMostOne(tickets, (t: Ticket) => t.id == id && t.ttype == Reserved);
  }

  lemma OtherMatchCount(tickets: seq<Ticket>, id: int)
    requires UniqueTicketIds(tickets)
    ensures Count(tickets, (t: Ticket) => t.id == id && t.ttype != Reserved)
      == if IsOtherTicket(tickets, id) then 1 else 0
  {
    CountAtMostOne(tickets, (t: Ticket) => t.id == id && t.ttype != Reserved);
  }

  lemma LiveHoldersIndicator(userTickets: seq<UserTicket>, tickets: seq<Ticket>, r: Reservation, now: Time)
    requires UniqueTicketIds(tickets) && SingleHolder(userTickets)
    ensures LiveHolders(userTickets, tickets, r.ticketId, now) == if LiveReservation(userTickets, tickets, r, now) then 1 else 0
  {
    var f := (u: UserTicket) =>
      if u.ticketId == r.ticketId && u.ValidAfter(now)
      then Count(tickets, (t: Ticket) => t.id == u.ticketId && t.ttype == Reserved)
      else 0;
    var p := (u: UserTicket) => u.ticketId == r.ticketId && u.ValidAfter(now) && IsReservedTicket(tickets, r.ticketId);
    ReservedMatchCount(tickets, r.ticketId);
    forall i | 0 <= i < |userTickets|
      ensures f(userTickets[i]) == if p(userTickets[i]) then 1 else 0
    {
      if userTickets[i].ticketId == r.ticketId && userTickets[i].ValidAfter(now) {
        assert f(userTickets[i]) == Count(tickets, (t: Ticket) => t.id == r.ticketId && t.ttype == Reserved);
      }
    }
    SumOfIndicator(userTickets, f, p);
    CountAtMostOne(userTickets, p);
  }

  /** With one holder per ticket and unique ticket ids, `reservedCount` is
      the number of the section's reservations that are live at `now`. */
  lemma ReservedCountMeaning(reservations: seq<Reservation>, userTickets: seq<UserTicket>, tickets: seq<Ticket>, sectionId: int, now: Time)
    requires UniqueTicketIds(tickets) && SingleHolder(userTickets)
    ensures ReservedCount(reservations, userTickets, tickets, sectionId, now)
      == Count(reservations, (r: Reservation) => r.sectionId == sectionId && LiveReservation(userTickets, tickets, r, now))
  {
    var f := (r: Reservation) =>
      if r.sectionId == sectionId then LiveHolders(userTickets, tickets, r.ticketId, now) else 0;
    var p := (r: Reservation) => r.sectionId == sectionId && LiveReservation(userTickets, tickets, r, now);
    forall i | 0 <= i < |reservations|
      ensures f(reservations[i]) == if p(reservations[i]) then 1 else 0
    {
      LiveHoldersIndicator(userTickets, tickets, reservations[i], now);
    }
    SumOfIndicator(reservations, f, p);
  }

  /** With unique ticket ids, `occupiedCount` is the number of open sessions
      of the section whose ticket exists and is not RESERVED. */
  lemma OccupiedCountMeaning(history: seq<Session>, tickets: seq<Ticket>, sectionId: int)
    requires UniqueTicketIds(tickets)
    ensures OccupiedCount(history, tickets, sectionId)
      == Count(history, (h: Session) => h.sectionId == sectionId && h.Open() && IsOtherTicket(tickets, h.ticketId))
  {
    var f := (h: Session) =>
      if h.sectionId == sectionId && h.Open()
      then Count(tickets, (t: Ticket) => t.id == h.ticketId && t.ttype != Reserved)
      else 0;
    var p := (h: Session) => h.sectionId == sectionId && h.Open() && IsOtherTicket(tickets, h.ticketId);
    forall i | 0 <= i < |history|
      ensures f(history[i]) == if p(history[i]) then 1 else 0
    {
      var id := history[i].ticketId;
      OtherMatchCount(tickets, id);
    }
    SumOfIndicator(history, f, p);
  }

  // ---- checkIn ----

  /** The committed part of a check-in: the ticket becomes INUSE and an open
      session of the vehicle is inserted. */
  function Admit(db: Db, sectionId: int, ticketId: int, vehicleId: int, now: Time): Db
  {
    db.(tickets := SetStatus(db.tickets, ticketId, InUse),
        history := db.history + [Session(db.nextSessionId, sectionId, vehicleId, ticketId, now, None, None)],
        nextSessionId := db.nextSessionId + 1)
  }

  function CheckIn(db: Db, c: Caller, sectionId: int, ticketId: int, plate: string, vtype: VehicleType, now: Time): (r: Reply<()>)
    ensures !MayOperate(c, sectionId) ==> r == Err(Forbidden, db)
    ensures r.Ok? ==>
      && MayOperate(c, sectionId)
      && TicketById(db, ticketId).Some?
      && TicketById(db, ticketId).value.status == Available
    ensures r.Ok? && TicketById(db, ticketId).value.ttype != Reserved ==>
      && AvailableSlots(db, sectionId, now).Success?
      && AvailableSlots(db, sectionId, now).value > 0
    ensures r.Ok? ==>
      && r.db.tickets == SetStatus(db.tickets, ticketId, InUse)
      && |r.db.history| == |db.history| + 1
      && r.db.history[..|db.history|] == db.history
      && var s := r.db.history[|db.history|];
         s.sectionId == sectionId && s.ticketId == ticketId && s.Open() && s.checkedInAt == now && s.fee.None?
    ensures r.Err? ==> r.db == db || r.db == FindOrCreateVehicle(db, plate, vtype).1
    ensures r.Err? && r.error != SectionFull && r.error != SlotCountFailed ==> r.db == db
    ensures r.Ok? <==>
      && MayOperate(c, sectionId)
      && TicketById(db, ticketId).Some?
      && TicketById(db, ticketId).value.status == Available
      && (|| TicketById(db, ticketId).value.ttype == Reserved
          || (AvailableSlots(db, sectionId, now).Success? && AvailableSlots(db, sectionId, now).value > 0))
  {
    if !MayOperate(c, sectionId) then Err(Forbidden, db)
    else match TicketById(db, ticketId)
      case None => Err(TicketNotFound, db)
      case Some(ticket) =>
        if ticket.status != Available then Err(TicketNotAvailable, db)
        else
          var (vehicle, db1) := FindOrCreateVehicle(db, plate, vtype);
          if ticket.ttype != Reserved && AvailableSlots(db1, sectionId, now).Failure? then
            Err(SlotCountFailed, db1)
          else if ticket.ttype != Reserved && AvailableSlots(db1, sectionId, now).value <= 0 then
            Err(SectionFull, db1)
          else
            Ok((), Admit(db1, sectionId, ticketId, vehicle.id, now))
  }

  // ---- checkOut ----

  /** The open session of the ticket in the section (`isNull(checkedOutAt)`). */
  function OpenSession(db: Db, sectionId: int, ticketId: int): Option<Session>
  {
    First(db.history, (h: Session) => h.sectionId == sectionId && h.ticketId == ticketId && h.Open())
  }

  /** The fee of a session closed at `now`. A MONTHLY or RESERVED ticket pays
      nothing until its holder's `validTo` and the DAILY price of the
      overstay after it; a DAILY ticket pays the DAILY price of the stay. */
  function SessionFee(db: Db, ticket: Ticket, session: Session, vehicle: Vehicle, now: Time): (r: Result<real>)
    ensures ticket.ttype == Daily ==> r == CalculatePrice(db.prices, Daily, vehicle.vtype, session.checkedInAt, now)
    ensures ticket.ttype != Daily && HolderOf(db, ticket.id).None? ==> r == Failure(UserTicketNotFound)
    ensures ticket.ttype != Daily && HolderOf(db, ticket.id).Some? ==>
      var validTo := HolderOf(db, ticket.id).value.ValidToInstant();
      r == if now <= validTo then Success(0.0) else CalculatePrice(db.prices, Daily, vehicle.vtype, validTo, now)
    ensures r.Success? && ticket.ttype == Daily ==> PriceConfigured(db.prices, Daily, vehicle.vtype)
    ensures r.Success? ==>
      || (r.value == 0.0 && ticket.ttype != Daily)
      || (PriceConfigured(db.prices, Daily, vehicle.vtype) && r.value >= db.prices[(Daily, vehicle.vtype)])
  {
    if ticket.ttype == Daily then
      CalculatePrice(db.prices, Daily, vehicle.vtype, session.checkedInAt, now)
    else
      match HolderOf(db, ticket.id)
      case None => Failure(UserTicketNotFound)
      case Some(holder) =>
        if now > holder.ValidToInstant() then CalculatePrice(db.prices, Daily, vehicle.vtype, holder.ValidToInstant(), now)
        else Success(0.0)
  }

  /** The history table with session `id` closed at `now` with `fee`. */
  function CloseSession(history: seq<Session>, id: int, now: Time, fee: Option<real>): (r: seq<Session>)
    ensures |r| == |history|
    ensures forall i | 0 <= i < |r| ::
      r[i] == if history[i].id == id then history[i].(checkedOutAt := Some(now), fee := fee) else history[i]
    ensures forall i | 0 <= i < |r| && r[i].id == id :: !r[i].Open() && r[i].fee == fee
    ensures forall i | 0 <= i < |r| && r[i].Open() :: history[i].Open() && r[i] == history[i]
    ensures forall x | x in history && x.id != id :: x in r
  {
    seq(|history|, i requires 0 <= i < |history| =>
      if history[i].id == id then history[i].(checkedOutAt := Some(now), fee := fee) else history[i])
  }

  /** A non-positive fee is stored as null. */
  function StoredFee(fee: real): Option<real>
  {
    if fee > 0.0 then Some(fee) else None
  }

  /** The committed part of a check-out. */
  function Release(db: Db, ticketId: int, sessionId: int, now: Time, fee: real): Db
  {
    db.(tickets := SetStatus(db.tickets, ticketId, Available),
        history := CloseSession(db.history, sessionId, now, StoredFee(fee)))
  }

  function CheckOut(db: Db, c: Caller, sectionId: int, ticketId: int, plate: string, now: Time): (r: Reply<real>)
    ensures !MayOperate(c, sectionId) ==> r == Err(Forbidden, db)
    ensures r.Err? ==> r.db == db
    ensures r.Ok? ==>
      && MayOperate(c, sectionId)
      && TicketById(db, ticketId).Some?
      && TicketById(db, ticketId).value.status == InUse
      && OpenSession(db, sectionId, ticketId).Some?
      && VehicleById(db, OpenSession(db, sectionId, ticketId).value.vehicleId).Some?
      && VehicleById(db, OpenSession(db, sectionId, ticketId).value.vehicleId).value.plate == plate
    ensures r.Ok? ==>
      r.db == Release(db, ticketId, OpenSession(db, sectionId, ticketId).value.id, now, r.value)
  {
    if !MayOperate(c, sectionId) then Err(Forbidden, db)
    else match TicketById(db, ticketId)
      case None => Err(TicketNotFound, db)
      case Some(ticket) =>
        if ticket.status != InUse then Err(TicketNotInUse, db)
        else match OpenSession(db, sectionId, ticketId)
          case None => Err(SessionNotFound, db)
          case Some(session) =>
            match VehicleById(db, session.vehicleId)
            case None => Err(VehicleNotFound, db)
            case Some(vehicle) =>
              if vehicle.plate != plate then Err(PlateMismatch, db)
              else match SessionFee(db, ticket, session, vehicle, now)
                case Failure(e) => Err(e, db)
                case Success(fee) => Ok(fee, Release(db, ticketId, session.id, now, fee))
  }

  // ---- Properties of check-in and check-out ----

  /** Slots of the section taken by live reservations and by open sessions
      of non-RESERVED tickets. */
  function Occupancy(db: Db, sectionId: int, now: Time): nat
  {
    ReservedCount(db.reservations, db.userTickets, db.tickets, sectionId, now)
      + OccupiedCount(db.history, db.tickets, sectionId)
  }

  lemma LiveHoldersIgnoreStatus(userTickets: seq<UserTicket>, tickets: seq<Ticket>, ticketId: int, now: Time, id: int, status: TicketStatus)
    ensures LiveHolders(userTickets, SetStatus(tickets, id, status), ticketId, now) == LiveHolders(userTickets, tickets, ticketId, now)
  {
    var t2 := SetStatus(tickets, id, status);
    var f := (u: UserTicket) =>
      if u.ticketId == ticketId && u.ValidAfter(now)
      then Count(tickets, (t: Ticket) => t.id == u.ticketId && t.ttype == Reserved)
      else 0;
    var g := (u: UserTicket) =>
      if u.ticketId == ticketId && u.ValidAfter(now)
      then Count(t2, (t: Ticket) => t.id == u.ticketId && t.ttype == Reserved)
      else 0;
    forall i | 0 <= i < |userTickets|
      ensures f(userTickets[i]) == g(userTickets[i])
    {
      var p := (t: Ticket) => t.id == userTickets[i].ticketId && t.ttype == Reserved;
      CountSame(tickets, t2, p, p);
    }
    SumSame(userTickets, userTickets, f, g);
  }

  /** The free-slot count reads only ticket ids and types, so a status change
      does not move it. */
  lemma CountsIgnoreStatus(db: Db, sectionId: int, now: Time, id: int, status: TicketStatus)
    ensures Occupancy(db.(tickets := SetStatus(db.tickets, id, status)), sectionId, now) == Occupancy(db, sectionId, now)
  {
    var t2 := SetStatus(db.tickets, id, status);
    var f := (r: Reservation) =>
      if r.sectionId == sectionId then LiveHolders(db.userTickets, db.tickets, r.ticketId, now) else 0;
    var g := (r: Reservation) =>
      if r.sectionId == sectionId then LiveHolders(db.userTickets, t2, r.ticketId, now) else 0;
    forall i | 0 <= i < |db.reservations|
      ensures f(db.reservations[i]) == g(db.reservations[i])
    {
      LiveHoldersIgnoreStatus(db.userTickets, db.tickets, db.reservations[i].ticketId, now, id, status);
    }
    SumSame(db.reservations, db.reservations, f, g);
    var f' := (h: Session) =>
      if h.sectionId == sectionId && h.Open()
      then Count(db.tickets, (t: Ticket) => t.id == h.ticketId && t.ttype != Reserved)
      else 0;
    var g' := (h: Session) =>
      if h.sectionId == sectionId && h.Open()
      then Count(t2, (t: Ticket) => t.id == h.ticketId && t.ttype != Reserved)
      else 0;
    forall i | 0 <= i < |db.history|
      ensures f'(db.history[i]) == g'(db.history[i])
    {
      var p := (t: Ticket) => t.id == db.history[i].ticketId && t.ttype != Reserved;
      CountSame(db.tickets, t2, p, p);
    }
    SumSame(db.history, db.history, f', g');
  }

  /** An inserted open session occupies a slot of its section exactly when
      its ticket is a non-RESERVED one. */
  lemma OccupiedAppend(history: seq<Session>, tickets: seq<Ticket>, sectionId: int, s: Session)
    requires UniqueTicketIds(tickets)
    ensures OccupiedCount(history + [s], tickets, sectionId) == OccupiedCount(history, tickets, sectionId)
      + if s.sectionId == sectionId && s.Open() && IsOtherTicket(tickets, s.ticketId) then 1 else 0
  {
    var f := (h: Session) =>
      if h.sectionId == sectionId && h.Open()
      then Count(tickets, (t: Ticket) => t.id == h.ticketId && t.ttype != Reserved)
      else 0;
    SumAppend(history, [s], f);
    OtherMatchCount(tickets, s.ticketId);
  }

  /** A check-in of a non-RESERVED ticket that succeeds leaves the section
      within its capacity: the slot it takes was counted free. */
  lemma CheckInRespectsCapacity(db: Db, c: Caller, sectionId: int, ticketId: int, plate: string, vtype: VehicleType, now: Time)
    requires UniqueTicketIds(db.tickets)
    requires CheckIn(db, c, sectionId, ticketId, plate, vtype, now).Ok?
    requires TicketById(db, ticketId).value.ttype != Reserved
    ensures var db' := CheckIn(db, c, sectionId, ticketId, plate, vtype, now).db;
      && SectionById(db', sectionId) == SectionById(db, sectionId)
      && SectionById(db', sectionId).Some?
      && Occupancy(db', sectionId, now) == Occupancy(db, sectionId, now) + 1
      && Occupancy(db', sectionId, now) <= SectionById(db', sectionId).value.capacity
  {
    var (v, db1) := FindOrCreateVehicle(db, plate, vtype);
    CheckInCommits(db, c, sectionId, ticketId, plate, vtype, now);
    assert db1 == db.(vehicles := db1.vehicles, nextVehicleId := db1.nextVehicleId);
    AdmitOccupancy(db1, sectionId, ticketId, v.id, now);
  }

  /** A RESERVED ticket checks in on its reserved slot, which is already
      counted, so the occupancy does not move. */
  lemma ReservedCheckInKeepsOccupancy(db: Db, c: Caller, sectionId: int, ticketId: int, plate: string, vtype: VehicleType, now: Time)
    requires UniqueTicketIds(db.tickets)
    requires CheckIn(db, c, sectionId, ticketId, plate, vtype, now).Ok?
    requires TicketById(db, ticketId).value.ttype == Reserved
    ensures Occupancy(CheckIn(db, c, sectionId, ticketId, plate, vtype, now).db, sectionId, now) == Occupancy(db, sectionId, now)
  {
    var (v, db1) := FindOrCreateVehicle(db, plate, vtype);
    CheckInCommits(db, c, sectionId, ticketId, plate, vtype, now);
    assert db1 == db.(vehicles := db1.vehicles, nextVehicleId := db1.nextVehicleId);
    AdmitOccupancy(db1, sectionId, ticketId, v.id, now);
  }

  /** The check-in transaction adds one to the occupancy for a
      non-RESERVED ticket and nothing for a RESERVED one. */
  lemma AdmitOccupancy(db: Db, sectionId: int, ticketId: int, vehicleId: int, now: Time)
    requires UniqueTicketIds(db.tickets)
    requires TicketById(db, ticketId).Some?
    ensures Occupancy(Admit(db, sectionId, ticketId, vehicleId, now), sectionId, now)
      == Occupancy(db, sectionId, now) + if TicketById(db, ticketId).value.ttype != Reserved then 1 else 0
  {
    var s := Session(db.nextSessionId, sectionId, vehicleId, ticketId, now, None, None);
    var mid := db.(tickets := SetStatus(db.tickets, ticketId, InUse));
    CountsIgnoreStatus(db, sectionId, now, ticketId, InUse);
    var k :| 0 <= k < |db.tickets| && db.tickets[k] == TicketById(db, ticketId).value && db.tickets[k].id == ticketId;
    assert forall j | 0 <= j < |mid.tickets| && mid.tickets[j].id == ticketId :: j == k;
    assert IsOtherTicket(mid.tickets, ticketId) <==> mid.tickets[k].ttype != Reserved;
    assert UniqueTicketIds(mid.tickets);
    OccupiedAppend(mid.history, mid.tickets, sectionId, s);
    assert Admit(db, sectionId, ticketId, vehicleId, now) == mid.(history := mid.history + [s], nextSessionId := mid.nextSessionId + 1);
  }

  /** A successful check-in commits `Admit` on the store the vehicle lookup left. */
  lemma CheckInCommits(db: Db, c: Caller, sectionId: int, ticketId: int, plate: string, vtype: VehicleType, now: Time)
    requires CheckIn(db, c, sectionId, ticketId, plate, vtype, now).Ok?
    ensures var (v, db1) := FindOrCreateVehicle(db, plate, vtype);
      CheckIn(db, c, sectionId, ticketId, plate, vtype, now).db == Admit(db1, sectionId, ticketId, v.id, now)
  {
  }

  lemma AdmitKeepsKeys(db: Db, sectionId: int, ticketId: int, vehicleId: int, now: Time)
    requires Keys(db)
    ensures Keys(Admit(db, sectionId, ticketId, vehicleId, now))
  {
    var db' := Admit(db, sectionId, ticketId, vehicleId, now);
    assert forall i | 0 <= i < |db.history| :: db'.history[i] == db.history[i];
  }

  /** Check-in keeps every key of the schema: the session id is fresh, the
      vehicle insert keeps plates unique, and ticket ids do not change. */
  lemma CheckInKeepsKeys(db: Db, c: Caller, sectionId: int, ticketId: int, plate: string, vtype: VehicleType, now: Time)
    requires Keys(db)
    ensures Keys(CheckIn(db, c, sectionId, ticketId, plate, vtype, now).db)
  {
    var r := CheckIn(db, c, sectionId, ticketId, plate, vtype, now);
    var (v, db1) := FindOrCreateVehicle(db, plate, vtype);
    FindOrCreateVehicleKeys(db, plate, vtype);
    assert Keys(db1);
    if r.Ok? {
      CheckInCommits(db, c, sectionId, ticketId, plate, vtype, now);
      AdmitKeepsKeys(db1, sectionId, ticketId, v.id, now);
    }
  }

  /** The check-in transaction keeps the session discipline when the
      ticket was AVAILABLE: it had no open session and is INUSE now. */
  lemma AdmitKeepsSessions(db: Db, sectionId: int, ticketId: int, vehicleId: int, now: Time)
    requires SessionsConsistent(db)
    requires TicketById(db, ticketId).Some? && TicketById(db, ticketId).value.status == Available
    ensures SessionsConsistent(Admit(db, sectionId, ticketId, vehicleId, now))
  {
    var k :| 0 <= k < |db.tickets| && db.tickets[k] == TicketById(db, ticketId).value && db.tickets[k].id == ticketId;
    assert forall i | 0 <= i < |db.history| && db.history[i].Open() :: db.history[i].ticketId != ticketId;
    var h := Admit(db, sectionId, ticketId, vehicleId, now).history;
    assert forall i | 0 <= i < |db.history| :: h[i] == db.history[i];
    AdmitKeepsInUseOpen(db, sectionId, ticketId, vehicleId, now);
  }

  /** After the check-in transaction every INUSE ticket still has an open
      session: the admitted one has the new session. */
  lemma AdmitKeepsInUseOpen(db: Db, sectionId: int, ticketId: int, vehicleId: int, now: Time)
    requires forall k | 0 <= k < |db.tickets| && db.tickets[k].status == InUse :: HasOpenSession(db.history, db.tickets[k].id)
    ensures var db' := Admit(db, sectionId, ticketId, vehicleId, now);
      forall k | 0 <= k < |db'.tickets| && db'.tickets[k].status == InUse :: HasOpenSession(db'.history, db'.tickets[k].id)
  {
    var db' := Admit(db, sectionId, ticketId, vehicleId, now);
    var n := |db.history|;
    forall k | 0 <= k < |db'.tickets| && db'.tickets[k].status == InUse
      ensures HasOpenSession(db'.history, db'.tickets[k].id)
    {
      if db.tickets[k].id == ticketId {
        assert db'.history[n].Open() && db'.history[n].ticketId == db'.tickets[k].id;
      } else {
        var i :| 0 <= i < n && db.history[i].Open() && db.history[i].ticketId == db.tickets[k].id;
        assert db'.history[i] == db.history[i];
      }
    }
  }

  /** Check-in keeps the session discipline. */
  lemma CheckInKeepsSessions(db: Db, c: Caller, sectionId: int, ticketId: int, plate: string, vtype: VehicleType, now: Time)
    requires SessionsConsistent(db)
    ensures SessionsConsistent(CheckIn(db, c, sectionId, ticketId, plate, vtype, now).db)
  {
    var r := CheckIn(db, c, sectionId, ticketId, plate, vtype, now);
    if r.Ok? {
      var (v, db1) := FindOrCreateVehicle(db, plate, vtype);
      CheckInCommits(db, c, sectionId, ticketId, plate, vtype, now);
      assert db1.tickets == db.tickets && db1.history == db.history;
      AdmitKeepsSessions(db1, sectionId, ticketId, v.id, now);
    }
  }

  /** The check-out transaction keeps every key: it only rewrites statuses
      and closes a row. */
  lemma ReleaseKeepsKeys(db: Db, ticketId: int, sessionId: int, now: Time, fee: real)
    requires Keys(db)
    ensures Keys(Release(db, ticketId, sessionId, now, fee))
  {
    var db' := Release(db, ticketId, sessionId, now, fee);
    assert forall i | 0 <= i < |db.history| :: db'.history[i].id == db.history[i].id;
    assert forall i | 0 <= i < |db.tickets| :: db'.tickets[i].id == db.tickets[i].id;
  }

  /** Check-in stores no fee, so every stored fee stays positive. */
  lemma CheckInKeepsPositiveFees(db: Db, c: Caller, sectionId: int, ticketId: int, plate: string, vtype: VehicleType, now: Time)
    requires PositiveFees(db.history)
    ensures PositiveFees(CheckIn(db, c, sectionId, ticketId, plate, vtype, now).db.history)
  {
    var r := CheckIn(db, c, sectionId, ticketId, plate, vtype, now);
    if r.Ok? {
      CheckInCommits(db, c, sectionId, ticketId, plate, vtype, now);
    }
  }

  /** Check-out stores the fee only when it is positive, so every stored fee
      stays positive; the revenue report relies on this. */
  lemma CheckOutKeepsPositiveFees(db: Db, c: Caller, sectionId: int, ticketId: int, plate: string, now: Time)
    requires PositiveFees(db.history)
    ensures PositiveFees(CheckOut(db, c, sectionId, ticketId, plate, now).db.history)
  {
    var r := CheckOut(db, c, sectionId, ticketId, plate, now);
    if r.Ok? {
      var id := OpenSession(db, sectionId, ticketId).value.id;
      var h := CloseSession(db.history, id, now, StoredFee(r.value));
      assert r.db.history == h;
      forall i | 0 <= i < |h| && h[i].fee.Some?
        ensures h[i].fee.value > 0.0
      {
        if db.history[i].id != id {
          assert h[i] == db.history[i];
        }
      }
    }
  }

  /** Check-out keeps every key. */
  lemma CheckOutKeepsKeys(db: Db, c: Caller, sectionId: int, ticketId: int, plate: string, now: Time)
    requires Keys(db)
    ensures Keys(CheckOut(db, c, sectionId, ticketId, plate, now).db)
  {
    var r := CheckOut(db, c, sectionId, ticketId, plate, now);
    if r.Ok? {
      ReleaseKeepsKeys(db, ticketId, OpenSession(db, sectionId, ticketId).value.id, now, r.value);
    }
  }

  /** The check-out transaction keeps the session discipline: the closed
      session was the ticket's only open one, and the ticket is AVAILABLE
      again. */
  lemma ReleaseKeepsSessions(db: Db, sectionId: int, ticketId: int, now: Time, fee: real)
    requires SessionsConsistent(db) && SessionKeys(db)
    requires OpenSession(db, sectionId, ticketId).Some?
    ensures SessionsConsistent(Release(db, ticketId, OpenSession(db, sectionId, ticketId).value.id, now, fee))
  {
    var session := OpenSession(db, sectionId, ticketId).value;
    var k :| 0 <= k < |db.history| && db.history[k] == session && session.ticketId == ticketId && session.Open();
    var db' := Release(db, ticketId, session.id, now, fee);
    var h := db'.history;
    forall i | 0 <= i < |h| && h[i].Open()
      ensures h[i] == db.history[i] && h[i].ticketId != ticketId
    {
      assert i != k;
    }
    forall i, j | 0 <= i < |h| && 0 <= j < |db'.tickets| && h[i].Open() && h[i].ticketId == db'.tickets[j].id
      ensures db'.tickets[j].status == InUse
    {
      assert db.history[i].Open() && db.history[i].ticketId == db.tickets[j].id;
    }
    ReleaseKeepsInUseOpen(db, ticketId, k, now, fee);
  }

  /** After the check-out transaction every INUSE ticket still has an open
      session: the closed session belonged to the released ticket, and
      session ids are unique. */
  lemma ReleaseKeepsInUseOpen(db: Db, ticketId: int, k: int, now: Time, fee: real)
    requires SessionsConsistent(db) && SessionKeys(db)
    requires 0 <= k < |db.history| && db.history[k].ticketId == ticketId
    ensures var db' := Release(db, ticketId, db.history[k].id, now, fee);
      forall j | 0 <= j < |db'.tickets| && db'.tickets[j].status == InUse :: HasOpenSession(db'.history, db'.tickets[j].id)
  {
    var db' := Release(db, ticketId, db.history[k].id, now, fee);
    forall j | 0 <= j < |db'.tickets| && db'.tickets[j].status == InUse
      ensures HasOpenSession(db'.history, db'.tickets[j].id)
    {
      assert db.tickets[j].id != ticketId && db.tickets[j].status == InUse;
      var i :| 0 <= i < |db.history| && db.history[i].Open() && db.history[i].ticketId == db.tickets[j].id;
      assert i != k;
      assert db.history[i].id != db.history[k].id;
      assert db'.history[i] == db.history[i];
    }
  }

  /** Check-out keeps the session discipline. */
  lemma CheckOutKeepsSessions(db: Db, c: Caller, sectionId: int, ticketId: int, plate: string, now: Time)
    requires SessionsConsistent(db) && SessionKeys(db)
    ensures SessionsConsistent(CheckOut(db, c, sectionId, ticketId, plate, now).db)
  {
    var r := CheckOut(db, c, sectionId, ticketId, plate, now);
    if r.Ok? {
      ReleaseKeepsSessions(db, sectionId, ticketId, now, r.value);
    }
  }

  /** A ticket checks out once: the first check-out makes it AVAILABLE, so a
      repeated one is refused and changes nothing. */
  lemma SecondCheckOutFails(db: Db, c: Caller, sectionId: int, ticketId: int, plate: string, now: Time, later: Time)
    requires CheckOut(db, c, sectionId, ticketId, plate, now).Ok?
    ensures var db' := CheckOut(db, c, sectionId, ticketId, plate, now).db;
      CheckOut(db', c, sectionId, ticketId, plate, later) == Err(TicketNotInUse, db')
  {
    var db' := CheckOut(db, c, sectionId, ticketId, plate, now).db;
    var k :| 0 <= k < |db.tickets| && db.tickets[k] == TicketById(db, ticketId).value && db.tickets[k].id == ticketId;
    assert db'.tickets[k].status == Available;
    assert TicketById(db', ticketId).Some?;
    var j :| 0 <= j < |db'.tickets| && db'.tickets[j] == TicketById(db', ticketId).value && db'.tickets[j].id == ticketId;
  }

  /** Setting a status and then the status every row of the id had before
      gives the table back. */
  lemma SetStatusRestores(tickets: seq<Ticket>, id: int, status: TicketStatus, before: TicketStatus)
    requires forall i | 0 <= i < |tickets| && tickets[i].id == id :: tickets[i].status == before
    ensures SetStatus(SetStatus(tickets, id, status), id, before) == tickets
  {
    var t2 := SetStatus(SetStatus(tickets, id, status), id, before);
    assert forall i | 0 <= i < |tickets| :: t2[i] == tickets[i];
  }

  /** Check-in followed by check-out restores the ticket table: the status
      goes AVAILABLE -> INUSE -> AVAILABLE and nothing else moves. */
  lemma CheckInCheckOutRestoresTickets(db: Db, c: Caller, sectionId: int, ticketId: int, plate: string, vtype: VehicleType, now: Time, later: Time)
    requires UniqueTicketIds(db.tickets)
    requires CheckIn(db, c, sectionId, ticketId, plate, vtype, now).Ok?
    requires CheckOut(CheckIn(db, c, sectionId, ticketId, plate, vtype, now).db, c, sectionId, ticketId, plate, later).Ok?
    ensures CheckOut(CheckIn(db, c, sectionId, ticketId, plate, vtype, now).db, c, sectionId, ticketId, plate, later).db.tickets == db.tickets
  {
    var db1 := CheckIn(db, c, sectionId, ticketId, plate, vtype, now).db;
    var r2 := CheckOut(db1, c, sectionId, ticketId, plate, later);
    assert db1.tickets == SetStatus(db.tickets, ticketId, InUse);
    assert r2.db.tickets == SetStatus(db1.tickets, ticketId, Available);
    AvailableRoundTrip(db, ticketId);
  }

  /** An AVAILABLE ticket of unique id made INUSE and then AVAILABLE again
      leaves the table as it was. */
  lemma AvailableRoundTrip(db: Db, ticketId: int)
    requires UniqueTicketIds(db.tickets)
    requires TicketById(db, ticketId).Some? && TicketById(db, ticketId).value.status == Available
    ensures SetStatus(SetStatus(db.tickets, ticketId, InUse), ticketId, Available) == db.tickets
  {
    var k :| 0 <= k < |db.tickets| && db.tickets[k] == TicketById(db, ticketId).value && db.tickets[k].id == ticketId;
    assert forall i | 0 <= i < |db.tickets| && db.tickets[i].id == ticketId :: i == k;
    SetStatusRestores(db.tickets, ticketId, InUse, Available);
  }

  /** After a status change the ticket lookup finds the same row, with the
      new status. */
  lemma TicketByIdAfterSetStatus(db: Db, id: int, status: TicketStatus)
    requires TicketById(db, id).Some?
    ensures TicketById(db.(tickets := SetStatus(db.tickets, id, status)), id) == Some(TicketById(db, id).value.(status := status))
  {
    var t2 := SetStatus(db.tickets, id, status);
    var k :| 0 <= k < |db.tickets| && db.tickets[k] == TicketById(db, id).value && db.tickets[k].id == id
      && forall j | 0 <= j < k :: db.tickets[j].id != id;
    assert t2[k] == db.tickets[k].(status := status);
    assert forall j | 0 <= j < k :: t2[j] == db.tickets[j];
    FirstAt(t2, (t: Ticket) => t.id == id, k);
  }

  /** The check-out of a ticket that is INUSE, has an open session in the
      section whose vehicle carries the plate, and whose fee can be computed,
      succeeds. */
  lemma CheckOutSucceeds(db: Db, c: Caller, sectionId: int, ticketId: int, plate: string, now: Time, ticket: Ticket, session: Session, vehicle: Vehicle)
    requires MayOperate(c, sectionId)
    requires TicketById(db, ticketId) == Some(ticket) && ticket.status == InUse
    requires OpenSession(db, sectionId, ticketId) == Some(session)
    requires VehicleById(db, session.vehicleId) == Some(vehicle) && vehicle.plate == plate
    requires SessionFee(db, ticket, session, vehicle, now).Success?
    ensures CheckOut(db, c, sectionId, ticketId, plate, now).Ok?
  {
  }

  /** Under the session discipline an AVAILABLE ticket has no open session. */
  lemma AvailableHasNoSession(db: Db, ticketId: int)
    requires SessionsConsistent(db)
    requires TicketById(db, ticketId).Some? && TicketById(db, ticketId).value.status == Available
    ensures forall i | 0 <= i < |db.history| && db.history[i].Open() :: db.history[i].ticketId != ticketId
  {
    var k :| 0 <= k < |db.tickets| && db.tickets[k] == TicketById(db, ticketId).value && db.tickets[k].id == ticketId;
  }

  /** The session `Admit` inserts is the one check-out finds, when the ticket
      had no open session in the section before. */
  lemma AdmitOpensSession(db: Db, sectionId: int, ticketId: int, vehicleId: int, now: Time)
    requires OpenSession(db, sectionId, ticketId).None?
    ensures OpenSession(Admit(db, sectionId, ticketId, vehicleId, now), sectionId, ticketId)
      == Some(Session(db.nextSessionId, sectionId, vehicleId, ticketId, now, None, None))
  {
    var session := Session(db.nextSessionId, sectionId, vehicleId, ticketId, now, None, None);
    FirstAppend(db.history, session, (h: Session) => h.sectionId == sectionId && h.ticketId == ticketId && h.Open());
  }

  lemma CheckOutAfterAdmit(db: Db, c: Caller, sectionId: int, ticketId: int, plate: string, later: Time, v: Vehicle, ticket: Ticket, now: Time)
    requires MayOperate(c, sectionId)
    requires TicketById(db, ticketId) == Some(ticket)
    requires OpenSession(db, sectionId, ticketId).None?
    requires VehicleById(db, v.id) == Some(v) && v.plate == plate
    requires PriceConfigured(db.prices, Daily, v.vtype)
    requires ticket.ttype != Daily ==> HolderOf(db, ticketId).Some?
    ensures CheckOut(Admit(db, sectionId, ticketId, v.id, now), c, sectionId, ticketId, plate, later).Ok?
  {
    var db' := Admit(db, sectionId, ticketId, v.id, now);
    TicketByIdAfterSetStatus(db, ticketId, InUse);
    AdmitOpensSession(db, sectionId, ticketId, v.id, now);
    var session := Session(db.nextSessionId, sectionId, v.id, ticketId, now, None, None);
    assert VehicleById(db', v.id) == Some(v);
    assert HolderOf(db', ticketId) == HolderOf(db, ticketId);
    CheckOutSucceeds(db', c, sectionId, ticketId, plate, later, ticket.(status := InUse), session, v);
  }

  /** After a check-in, the same caller can check the same plate out: the
      session just opened is found, its vehicle carries the plate, and the
      fee can be computed when a DAILY price is configured for every
      vehicle type and a MONTHLY or RESERVED ticket has a holder. */
  lemma CheckOutAfterCheckIn(db: Db, c: Caller, sectionId: int, ticketId: int, plate: string, vtype: VehicleType, now: Time, later: Time)
    requires SessionsConsistent(db) && VehicleKeys(db)
    requires CheckIn(db, c, sectionId, ticketId, plate, vtype, now).Ok?
    requires forall vt: VehicleType :: PriceConfigured(db.prices, Daily, vt)
    requires TicketById(db, ticketId).value.ttype != Daily ==> HolderOf(db, ticketId).Some?
    ensures CheckOut(CheckIn(db, c, sectionId, ticketId, plate, vtype, now).db, c, sectionId, ticketId, plate, later).Ok?
  {
    var (v, db1) := FindOrCreateVehicle(db, plate, vtype);
    FindOrCreateVehicleKeys(db, plate, vtype);
    CheckInCommits(db, c, sectionId, ticketId, plate, vtype, now);
    AvailableHasNoSession(db, ticketId);
    assert OpenSession(db1, sectionId, ticketId).None?;
    CheckOutAfterAdmit(db1, c, sectionId, ticketId, plate, later, v, TicketById(db, ticketId).value, now);
  }

  /** The vehicle of the session a check-out closes. */
  function CheckedOutVehicle(db: Db, sectionId: int, ticketId: int): Option<Vehicle>
  {
    match OpenSession(db, sectionId, ticketId)
    case None => None
    case Some(s) => VehicleById(db, s.vehicleId)
  }

  /** A MONTHLY or RESERVED ticket leaving by its holder's `validTo` pays
      nothing and its session stores a null fee; leaving later it pays the
      DAILY price of the overstay alone, which is at least the DAILY base
      price. */
  lemma HolderFee(db: Db, c: Caller, sectionId: int, ticketId: int, plate: string, now: Time)
    requires CheckOut(db, c, sectionId, ticketId, plate, now).Ok?
    requires TicketById(db, ticketId).value.ttype != Daily
    ensures HolderOf(db, ticketId).Some?
    ensures var r := CheckOut(db, c, sectionId, ticketId, plate, now);
      var validTo := HolderOf(db, ticketId).value.ValidToInstant();
      var vtype := CheckedOutVehicle(db, sectionId, ticketId).value.vtype;
      && (now <= validTo ==> r.value == 0.0 && StoredFee(r.value).None?)
      && (now > validTo ==>
            && PriceConfigured(db.prices, Daily, vtype)
            && r.value == ProratedPrice(db.prices[(Daily, vtype)], validTo, now)
            && r.value >= db.prices[(Daily, vtype)])
  {
  }

  /** A DAILY ticket pays the prorated DAILY price of the whole stay, never
      less than the DAILY base price. */
  lemma DailyFee(db: Db, c: Caller, sectionId: int, ticketId: int, plate: string, now: Time)
    requires CheckOut(db, c, sectionId, ticketId, plate, now).Ok?
    requires TicketById(db, ticketId).value.ttype == Daily
    ensures var r := CheckOut(db, c, sectionId, ticketId, plate, now);
      var vtype := CheckedOutVehicle(db, sectionId, ticketId).value.vtype;
      && PriceConfigured(db.prices, Daily, vtype)
      && r.value == ProratedPrice(db.prices[(Daily, vtype)], OpenSession(db, sectionId, ticketId).value.checkedInAt, now)
      && r.value >= db.prices[(Daily, vtype)]
  {
  }
}
