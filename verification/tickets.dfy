/** The ticket lifecycle (src/modules/ticket/ticket.service.ts): creation by
    class, slot reservation, cancellation, batch creation of DAILY tickets,
    partial update, and the listings filtered by ownership. Every mutating
    call runs in one transaction, so an error leaves the store as it was. */
module Tickets {
  import opened Types
  import opened Schema

  // ---- Slots ----

  /** The reservation holding (sectionId, slot), if any. */
  function ReservationAt(db: Db, sectionId: int, slot: int): Option<Reservation>
  {
    First(db.reservations, (r: Reservation) => r.sectionId == sectionId && r.slot == slot)
  }

  /** Slot numbers run from 1 to the section's capacity. */
  predicate SlotInRange(section: Section, slot: int)
  {
    1 <= slot <= section.capacity
  }

  /** Every reservation names an existing section and a slot inside it. */
  predicate SlotsInRange(db: Db)
  {
    forall i | 0 <= i < |db.reservations| ::
      && SectionById(db, db.reservations[i].sectionId).Some?
      && SlotInRange(SectionById(db, db.reservations[i].sectionId).value, db.reservations[i].slot)
  }

  /** The slot numbers 1..n of a section of capacity n. */
  function SlotNumbers(n: nat): (r: set<int>)
    ensures |r| == n
    ensures forall k :: k in r <==> 1 <= k <= n
  {
    if n == 0 then {} else SlotNumbers(n - 1) + {n}
  }

  /** Rows of one section with pairwise distinct slots, all drawn from
      `slots`, number at most |slots|. */
  lemma {:induction false} DistinctSlotsBound(s: seq<Reservation>, sectionId: int, slots: set<int>)
    requires DistinctBy(s, SlotKey)
    requires forall i | 0 <= i < |s| && s[i].sectionId == sectionId :: s[i].slot in slots
    ensures Count(s, (r: Reservation) => r.sectionId == sectionId) <= |slots|
  {
    if |s| > 0 {
      assert forall i, j | 0 <= i < j < |s| - 1 :: s[1..][i] == s[i + 1] && s[1..][j] == s[j + 1];
      if s[0].sectionId == sectionId {
        var rest := slots - {s[0].slot};
        forall i | 0 <= i < |s| - 1 && s[1..][i].sectionId == sectionId
          ensures s[1..][i].slot in rest
        {
          assert SlotKey(s[0]) != SlotKey(s[i + 1]);
        }
        DistinctSlotsBound(s[1..], sectionId, rest);
      } else {
        DistinctSlotsBound(s[1..], sectionId, slots);
      }
    }
  }

  /** Since (sectionId, slot) is the key of reservations and every slot lies
      in 1..capacity, a section never holds more reservations than its
      capacity. */
  lemma ReservationsWithinCapacity(db: Db, sectionId: int)
    requires ReservationKeys(db) && SlotsInRange(db)
    requires SectionById(db, sectionId).Some? && SectionById(db, sectionId).value.capacity >= 0
    ensures Count(db.reservations, (r: Reservation) => r.sectionId == sectionId) <= SectionById(db, sectionId).value.capacity
  {
    var cap := SectionById(db, sectionId).value.capacity;
    DistinctSlotsBound(db.reservations, sectionId, SlotNumbers(cap));
  }

  // ---- create ----

  /** The fields of a creation request; `userId`, `vehicleId`, `sectionId`
      and `slot` are read only for MONTHLY and RESERVED tickets. The slot
      may be absent: an absent slot passes the range check, since
      `undefined < 1` and `undefined > capacity` are both false. */
  datatype NewTicket = NewTicket(ttype: TicketType, userId: int, vehicleId: int, sectionId: int, slot: Option<int>)

  /** The request's slot, when given, lies inside the section. */
  predicate SlotAccepted(section: Section, slot: Option<int>)
  {
    slot.None? || SlotInRange(section, slot.value)
  }

  /** A fresh ticket row of `ttype`; its status takes the column default. */
  function InsertTicket(db: Db, ttype: TicketType): Db
  {
    db.(tickets := db.tickets + [Ticket(db.nextTicketId, ttype, Available)], nextTicketId := db.nextTicketId + 1)
  }

  /** The primary key (userId, ticketId) of user_tickets is taken. */
  predicate HolderKeyTaken(db: Db, userId: int, ticketId: int)
  {
    exists i | 0 <= i < |db.userTickets| :: db.userTickets[i].userId == userId && db.userTickets[i].ticketId == ticketId
  }

  /** Creates a ticket and, by class, its holder and its reservation; the
      value is the new ticket id. */
  function Create(db: Db, req: NewTicket): (r: Reply<int>)
    ensures r.Err? ==> r.db == db
    ensures req.ttype == Daily ==> r.Ok?
    ensures r.Ok? ==>
      && r.value == db.nextTicketId
      && r.db.tickets == db.tickets + [Ticket(r.value, req.ttype, Available)]
      && r.db.nextTicketId == db.nextTicketId + 1
    ensures r.Ok? && req.ttype == Daily ==>
      r.db.userTickets == db.userTickets && r.db.reservations == db.reservations
    ensures r.Ok? && req.ttype != Daily ==>
      && req.userId in db.users
      && SectionById(db, req.sectionId).Some?
      && SlotAccepted(SectionById(db, req.sectionId).value, req.slot)
      && VehicleById(db, req.vehicleId).Some?
      && r.db.userTickets == db.userTickets + [UserTicket(req.userId, r.value, req.vehicleId, None)]
    ensures r.Ok? && req.ttype == Monthly ==> r.db.reservations == db.reservations
    ensures r.Ok? && req.ttype == Reserved ==>
      && VehicleById(db, req.vehicleId).value.vtype == Car
      && req.slot.Some?
      && ReservationAt(db, req.sectionId, req.slot.value).None?
      && r.db.reservations == db.reservations + [Reservation(r.value, req.sectionId, req.slot.value)]
    ensures req.ttype != Daily ==>
      (r.Ok? <==>
        && req.userId in db.users
        && SectionById(db, req.sectionId).Some?
        && SlotAccepted(SectionById(db, req.sectionId).value, req.slot)
        && VehicleById(db, req.vehicleId).Some?
        && !HolderKeyTaken(db, req.userId, db.nextTicketId)
        && (req.ttype == Reserved ==>
              && VehicleById(db, req.vehicleId).value.vtype == Car
              && req.slot.Some?
              && ReservationAt(db, req.sectionId, req.slot.value).None?))
    ensures r.Ok? ==>
      r.db == db.(tickets := r.db.tickets, nextTicketId := r.db.nextTicketId,
                  userTickets := r.db.userTickets, reservations := r.db.reservations)
  {
    var ticketId := db.nextTicketId;
    var db1 := InsertTicket(db, req.ttype);
    if req.ttype == Daily then Ok(ticketId, db1)
    else if req.userId !in db.users then Err(UserNotFound, db)
    else match SectionById(db, req.sectionId)
      case None => Err(SectionNotFound, db)
      case Some(section) =>
        if !SlotAccepted(section, req.slot) then Err(InvalidSlot, db)
        else match VehicleById(db, req.vehicleId)
          case None => Err(VehicleNotFound, db)
          case Some(vehicle) =>
            if HolderKeyTaken(db, req.userId, ticketId) then Err(Internal, db)
            else
              var db2 := db1.(userTickets := db1.userTickets + [UserTicket(req.userId, ticketId, req.vehicleId, None)]);
              if req.ttype == Monthly then Ok(ticketId, db2)
              else if vehicle.vtype != Car then
                assert req.ttype == Reserved && VehicleById(db, req.vehicleId).value.vtype != Car;
                Err(NotACar, db)
              // an absent slot matches no reservation, and the insert then
              // violates the NOT NULL slot column
              else if req.slot.None? then Err(Internal, db)
              else if ReservationAt(db, req.sectionId, req.slot.value).Some? then Err(SlotTaken, db)
              else Ok(ticketId, db2.(reservations := db2.reservations + [Reservation(ticketId, req.sectionId, req.slot.value)]))
  }

  // ---- createDailyTickets ----

  /** `amount` DAILY tickets with consecutive ids from `start`. */
  function DailyBatch(start: int, amount: nat): (r: seq<Ticket>)
    ensures |r| == amount
    ensures forall i | 0 <= i < amount :: r[i].id == start + i && r[i].ttype == Daily && r[i].status == Available
  {
    seq(amount, i requires 0 <= i < amount => Ticket(start + i, Daily, Available))
  }

  function CreateDailyTickets(db: Db, amount: int): (r: Reply<()>)
    ensures r.Err? <==> amount <= 0
    ensures r.Err? ==> r == Err(InvalidAmount, db)
    ensures r.Ok? ==>
      && |r.db.tickets| == |db.tickets| + amount
      && r.db.tickets[..|db.tickets|] == db.tickets
      && (forall i | |db.tickets| <= i < |r.db.tickets| ::
            r.db.tickets[i].ttype == Daily && r.db.tickets[i].status == Available && r.db.tickets[i].id >= db.nextTicketId)
      && r.db.nextTicketId == db.nextTicketId + amount
      && r.db == db.(tickets := r.db.tickets, nextTicketId := r.db.nextTicketId)
  {
    if amount <= 0 then Err(InvalidAmount, db)
    else Ok((), db.(tickets := db.tickets + DailyBatch(db.nextTicketId, amount), nextTicketId := db.nextTicketId + amount))
  }

  // ---- update ----

  /** The row with only the supplied fields overwritten. */
  function Patch(t: Ticket, ttype: Option<TicketType>, status: Option<TicketStatus>): Ticket
  {
    Ticket(t.id,
      if ttype.Some? then ttype.value else t.ttype,
      if status.Some? then status.value else t.status)
  }

  /** Updates the supplied fields of ticket `id` and returns the updated row;
      with neither field the empty `set` throws. */
  function Update(db: Db, id: int, ttype: Option<TicketType>, status: Option<TicketStatus>): (r: Reply<Ticket>)
    ensures TicketById(db, id).None? ==> r == Err(TicketNotFound, db)
    ensures TicketById(db, id).Some? && ttype.None? && status.None? ==> r == Err(Internal, db)
    ensures r.Ok? <==> TicketById(db, id).Some? && (ttype.Some? || status.Some?)
    ensures r.Err? ==> r.db == db
    ensures r.Ok? ==>
      && |r.db.tickets| == |db.tickets|
      && (forall i | 0 <= i < |db.tickets| ::
            r.db.tickets[i] == if db.tickets[i].id == id then Patch(db.tickets[i], ttype, status) else db.tickets[i])
      && r.value.id == id
      && r.value.ttype == (if ttype.Some? then ttype.value else TicketById(db, id).value.ttype)
      && r.value.status == (if status.Some? then status.value else TicketById(db, id).value.status)
      && r.db == db.(tickets := r.db.tickets)
  {
    match TicketById(db, id)
    case None => Err(TicketNotFound, db)
    case Some(ticket) =>
      if ttype.None? && status.None? then Err(Internal, db)
      else
        Ok(Patch(ticket, ttype, status), db.(tickets := PatchAll(db.tickets, id, ttype, status)))
  }

  /** `update(tickets).set(...).where(eq(tickets.id, id))`. */
  function PatchAll(tickets: seq<Ticket>, id: int, ttype: Option<TicketType>, status: Option<TicketStatus>): (r: seq<Ticket>)
    ensures |r| == |tickets|
    ensures forall i | 0 <= i < |tickets| :: r[i] == if tickets[i].id == id then Patch(tickets[i], ttype, status) else tickets[i]
  {
    if |tickets| == 0 then []
    else [if tickets[0].id == id then Patch(tickets[0], ttype, status) else tickets[0]] + PatchAll(tickets[1..], id, ttype, status)
  }

  /** Repeating an update changes nothing more. */
  lemma UpdateIdempotent(db: Db, id: int, ttype: Option<TicketType>, status: Option<TicketStatus>)
    requires Update(db, id, ttype, status).Ok?
    ensures var db' := Update(db, id, ttype, status).db;
      Update(db', id, ttype, status) == Ok(Update(db, id, ttype, status).value, db')
  {
    var r := Update(db, id, ttype, status);
    var ticket := TicketById(db, id).value;
    assert r.db.tickets == PatchAll(db.tickets, id, ttype, status);
    PatchAllFinds(db, id, ttype, status);
    PatchAllIdempotent(db.tickets, id, ttype, status);
  }

  /** After the patch the ticket found by id is the patched ticket. */
  lemma PatchAllFinds(db: Db, id: int, ttype: Option<TicketType>, status: Option<TicketStatus>)
    requires TicketById(db, id).Some?
    ensures TicketById(db.(tickets := PatchAll(db.tickets, id, ttype, status)), id)
      == Some(Patch(TicketById(db, id).value, ttype, status))
  {
    var t2 := PatchAll(db.tickets, id, ttype, status);
    var k :| 0 <= k < |db.tickets| && db.tickets[k] == TicketById(db, id).value && db.tickets[k].id == id
      && forall j | 0 <= j < k :: db.tickets[j].id != id;
    assert t2[k] == Patch(db.tickets[k], ttype, status);
    assert forall j | 0 <= j < k :: t2[j] == db.tickets[j];
    FirstAt(t2, (t: Ticket) => t.id == id, k);
  }

  /** Patching patched rows changes nothing. */
  lemma PatchAllIdempotent(tickets: seq<Ticket>, id: int, ttype: Option<TicketType>, status: Option<TicketStatus>)
    ensures var t1 := PatchAll(tickets, id, ttype, status);
      PatchAll(t1, id, ttype, status) == t1
  {
    var t1 := PatchAll(tickets, id, ttype, status);
    var t2 := PatchAll(t1, id, ttype, status);
    assert forall i | 0 <= i < |tickets| :: t2[i] == t1[i];
  }


  // ---- reserve and cancel ----

  /** The first row of user_tickets x tickets x vehicles for ticket `id`;
      without a holder the destructuring `const [{...}]` throws. */
  datatype Binding = Binding(holder: UserTicket, ticket: Option<Ticket>, vehicle: Option<Vehicle>)

  function BindingOf(db: Db, id: int): (r: Option<Binding>)
    ensures r.None? <==> HolderOf(db, id).None?
    ensures r.Some? ==>
      && r.value.holder == HolderOf(db, id).value
      && r.value.ticket == TicketById(db, id)
      && r.value.vehicle == VehicleById(db, HolderOf(db, id).value.vehicleId)
  {
    match HolderOf(db, id)
    case None => None
    case Some(u) => Some(Binding(u, TicketById(db, id), VehicleById(db, u.vehicleId)))
  }

  /** ADMIN, or the user holding the ticket. */
  predicate MayManage(c: Caller, holder: UserTicket)
  {
    c.role == Admin || c.sub == holder.userId
  }

  /** Reserves `slot` of section `sectionId` for RESERVED ticket `id`. */
  function Reserve(db: Db, c: Caller, id: int, sectionId: int, slot: int): (r: Reply<()>)
    ensures r.Err? ==> r.db == db
    ensures HolderOf(db, id).None? ==> r == Err(Internal, db)
    ensures r.Ok? ==>
      && HolderOf(db, id).Some?
      && MayManage(c, HolderOf(db, id).value)
      && TicketById(db, id).Some? && TicketById(db, id).value.ttype == Reserved
      && VehicleById(db, HolderOf(db, id).value.vehicleId).Some?
      && VehicleById(db, HolderOf(db, id).value.vehicleId).value.vtype == Car
      && SectionById(db, sectionId).Some?
      && SlotInRange(SectionById(db, sectionId).value, slot)
      && ReservationAt(db, sectionId, slot).None?
      && r.db == db.(reservations := db.reservations + [Reservation(id, sectionId, slot)])
    ensures
      && HolderOf(db, id).Some?
      && MayManage(c, HolderOf(db, id).value)
      && TicketById(db, id).Some? && TicketById(db, id).value.ttype == Reserved
      && VehicleById(db, HolderOf(db, id).value.vehicleId).Some?
      && VehicleById(db, HolderOf(db, id).value.vehicleId).value.vtype == Car
      && SectionById(db, sectionId).Some?
      && SlotInRange(SectionById(db, sectionId).value, slot)
      && ReservationAt(db, sectionId, slot).None?
      ==> r.Ok?
  {
    match BindingOf(db, id)
    case None => Err(Internal, db)
    case Some(b) =>
      if b.ticket.None? then Err(TicketNotFound, db)
      else if !MayManage(c, b.holder) then Err(Forbidden, db)
      else if b.ticket.value.ttype != Reserved then Err(NotReservedTicket, db)
      else if b.vehicle.None? then Err(VehicleNotBound, db)
      else if b.vehicle.value.vtype != Car then Err(NotACar, db)
      else match SectionById(db, sectionId)
        case None => Err(SectionNotFound, db)
        case Some(section) =>
          if !SlotInRange(section, slot) then Err(InvalidSlot, db)
          else if ReservationAt(db, sectionId, slot).Some? then Err(SlotTaken, db)
          else Ok((), db.(reservations := db.reservations + [Reservation(b.ticket.value.id, sectionId, slot)]))
  }

  /** A taken slot cannot be reserved again: the call fails and the holding
      reservation stays; when every earlier check passes the error is 409. */
  lemma SecondReservationRejected(db: Db, c: Caller, id: int, sectionId: int, slot: int)
    requires ReservationAt(db, sectionId, slot).Some?
    ensures Reserve(db, c, id, sectionId, slot).Err?
    ensures Reserve(db, c, id, sectionId, slot).db == db
    ensures var b := BindingOf(db, id);
      && b.Some? && b.value.ticket.Some? && MayManage(c, b.value.holder)
      && b.value.ticket.value.ttype == Reserved
      && b.value.vehicle.Some? && b.value.vehicle.value.vtype == Car
      && SectionById(db, sectionId).Some? && SlotInRange(SectionById(db, sectionId).value, slot)
      ==> HttpStatus(Reserve(db, c, id, sectionId, slot).error) == 409
  {
  }

  /** The reservations left after deleting those of (ticketId, sectionId). */
  function Unreserve(reservations: seq<Reservation>, ticketId: int, sectionId: int): (r: seq<Reservation>)
    ensures forall x :: x in r <==> x in reservations && !(x.ticketId == ticketId && x.sectionId == sectionId)
  {
    Filter(reservations, (x: Reservation) => !(x.ticketId == ticketId && x.sectionId == sectionId))
  }

  predicate HasReservation(db: Db, ticketId: int, sectionId: int)
  {
    exists i | 0 <= i < |db.reservations| :: db.reservations[i].ticketId == ticketId && db.reservations[i].sectionId == sectionId
  }

  /** Cancels ticket `id`; a RESERVED ticket also gives up its reservation
      in `sectionId`, and without one the whole call rolls back. */
  function Cancel(db: Db, c: Caller, id: int, sectionId: int): (r: Reply<()>)
    ensures r.Err? ==> r.db == db
    ensures HolderOf(db, id).None? ==> r == Err(Internal, db)
    ensures TicketById(db, id).Some? && TicketById(db, id).value.status == Canceled ==> r.Err?
    ensures r.Ok? ==>
      && HolderOf(db, id).Some?
      && MayManage(c, HolderOf(db, id).value)
      && TicketById(db, id).Some? && TicketById(db, id).value.status != Canceled
      && VehicleById(db, HolderOf(db, id).value.vehicleId).Some?
      && SectionById(db, sectionId).Some?
      && r.db.tickets == SetStatus(db.tickets, id, Canceled)
    ensures r.Ok? && TicketById(db, id).value.ttype != Reserved ==>
      r.db == db.(tickets := SetStatus(db.tickets, id, Canceled))
    ensures r.Ok? && TicketById(db, id).value.ttype == Reserved ==>
      && HasReservation(db, id, sectionId)
      && r.db == db.(tickets := SetStatus(db.tickets, id, Canceled),
                     reservations := Unreserve(db.reservations, id, sectionId))
    ensures TicketById(db, id).Some? && TicketById(db, id).value.ttype == Reserved && !HasReservation(db, id, sectionId) ==>
      r.Err? && r.db == db
    ensures
      && HolderOf(db, id).Some?
      && MayManage(c, HolderOf(db, id).value)
      && TicketById(db, id).Some? && TicketById(db, id).value.status != Canceled
      && VehicleById(db, HolderOf(db, id).value.vehicleId).Some?
      && SectionById(db, sectionId).Some?
      && (TicketById(db, id).value.ttype != Reserved || HasReservation(db, id, sectionId))
      ==> r.Ok?
  {
    match BindingOf(db, id)
    case None => Err(Internal, db)
    case Some(b) =>
      if b.ticket.None? then Err(TicketNotFound, db)
      else if !MayManage(c, b.holder) then Err(Forbidden, db)
      else if b.ticket.value.status == Canceled then Err(AlreadyCanceled, db)
      else if b.vehicle.None? then Err(VehicleNotBound, db)
      else if SectionById(db, sectionId).None? then Err(SectionNotFound, db)
      else
        var db1 := db.(tickets := SetStatus(db.tickets, id, Canceled));
        if b.ticket.value.ttype != Reserved then Ok((), db1)
        else if !HasReservation(db, b.ticket.value.id, sectionId) then Err(NoReservation, db)
        else Ok((), db1.(reservations := Unreserve(db.reservations, b.ticket.value.id, sectionId)))
  }

  // ---- Invariants kept by the ticket calls ----

  /** The keys of the schema together with the slot ranges of reservations. */
  predicate Consistent(db: Db)
  {
    Keys(db) && SlotsInRange(db)
  }

  lemma InsertTicketKeepsConsistent(db: Db, ttype: TicketType)
    requires Consistent(db)
    ensures Consistent(InsertTicket(db, ttype))
  {
    var db' := InsertTicket(db, ttype);
    assert forall i | 0 <= i < |db.tickets| :: db'.tickets[i] == db.tickets[i];
  }

  lemma AddHolderKeepsConsistent(db: Db, u: UserTicket)
    requires Consistent(db)
    requires !HolderKeyTaken(db, u.userId, u.ticketId)
    ensures Consistent(db.(userTickets := db.userTickets + [u]))
  {
    var db' := db.(userTickets := db.userTickets + [u]);
    assert forall i | 0 <= i < |db.userTickets| :: db'.userTickets[i] == db.userTickets[i];
  }

  /** A free slot's key differs from every reservation's key. */
  lemma FreeSlotKey(db: Db, x: Reservation)
    requires ReservationAt(db, x.sectionId, x.slot).None?
    ensures forall i | 0 <= i < |db.reservations| :: SlotKey(db.reservations[i]) != SlotKey(x)
  {
    forall i | 0 <= i < |db.reservations|
      ensures SlotKey(db.reservations[i]) != SlotKey(x)
    {
      assert !(db.reservations[i].sectionId == x.sectionId && db.reservations[i].slot == x.slot);
    }
  }

  /** Only the reservation key depends on the reservations table. */
  lemma KeysWithReservations(db: Db, reservations: seq<Reservation>)
    requires Keys(db) && DistinctBy(reservations, SlotKey)
    ensures Keys(db.(reservations := reservations))
  {
  }

  lemma AddReservationKeepsConsistent(db: Db, x: Reservation)
    requires Consistent(db)
    requires ReservationAt(db, x.sectionId, x.slot).None?
    requires SectionById(db, x.sectionId).Some? && SlotInRange(SectionById(db, x.sectionId).value, x.slot)
    ensures Consistent(db.(reservations := db.reservations + [x]))
  {
    var db' := db.(reservations := db.reservations + [x]);
    FreeSlotKey(db, x);
    AppendKeepsDistinct(db.reservations, x, SlotKey);
    KeysWithReservations(db, db'.reservations);
    assert SlotsInRange(db') by {
      assert SectionById(db', x.sectionId) == SectionById(db, x.sectionId);
      assert forall i | 0 <= i < |db.reservations| :: db'.reservations[i] == db.reservations[i];
    }
  }

  lemma CreateKeepsConsistent(db: Db, req: NewTicket)
    requires Consistent(db)
    ensures Consistent(Create(db, req).db)
  {
    var r := Create(db, req);
    if r.Ok? {
      var db1 := InsertTicket(db, req.ttype);
      InsertTicketKeepsConsistent(db, req.ttype);
      if req.ttype != Daily {
        var u := UserTicket(req.userId, r.value, req.vehicleId, None);
        assert !HolderKeyTaken(db1, u.userId, u.ticketId);
        var db2 := db1.(userTickets := db1.userTickets + [u]);
        AddHolderKeepsConsistent(db1, u);
        if req.ttype == Reserved {
          AddReservationKeepsConsistent(db2, Reservation(r.value, req.sectionId, req.slot.value));
          assert r.db == db2.(reservations := db2.reservations + [Reservation(r.value, req.sectionId, req.slot.value)]);
        } else {
          assert r.db == db2;
        }
      }
    }
  }

  lemma ReserveKeepsConsistent(db: Db, c: Caller, id: int, sectionId: int, slot: int)
    requires Consistent(db)
    ensures Consistent(Reserve(db, c, id, sectionId, slot).db)
  {
    var r := Reserve(db, c, id, sectionId, slot);
    if r.Ok? {
      AddReservationKeepsConsistent(db, Reservation(id, sectionId, slot));
    }
  }

  lemma SetStatusKeepsConsistent(db: Db, id: int, status: TicketStatus)
    requires Consistent(db)
    ensures Consistent(db.(tickets := SetStatus(db.tickets, id, status)))
  {
  }

  lemma UnreserveKeepsConsistent(db: Db, ticketId: int, sectionId: int)
    requires Consistent(db)
    ensures Consistent(db.(reservations := Unreserve(db.reservations, ticketId, sectionId)))
  {
    var db' := db.(reservations := Unreserve(db.reservations, ticketId, sectionId));
    FilterKeepsDistinct(db.reservations, (x: Reservation) => !(x.ticketId == ticketId && x.sectionId == sectionId), SlotKey);
    forall i | 0 <= i < |db'.reservations|
      ensures SectionById(db, db'.reservations[i].sectionId).Some?
      ensures SlotInRange(SectionById(db, db'.reservations[i].sectionId).value, db'.reservations[i].slot)
    {
      assert db'.reservations[i] in db.reservations;
    }
  }

  lemma CancelKeepsConsistent(db: Db, c: Caller, id: int, sectionId: int)
    requires Consistent(db)
    ensures Consistent(Cancel(db, c, id, sectionId).db)
  {
    var r := Cancel(db, c, id, sectionId);
    if r.Ok? {
      var db1 := db.(tickets := SetStatus(db.tickets, id, Canceled));
      SetStatusKeepsConsistent(db, id, Canceled);
      if TicketById(db, id).value.ttype == Reserved {
        UnreserveKeepsConsistent(db1, id, sectionId);
        assert r.db == db1.(reservations := Unreserve(db1.reservations, id, sectionId));
      }
    }
  }

  lemma CreateDailyTicketsKeepsConsistent(db: Db, amount: int)
    requires Consistent(db)
    ensures Consistent(CreateDailyTickets(db, amount).db)
  {
  }

  lemma UpdateKeepsConsistent(db: Db, id: int, ttype: Option<TicketType>, status: Option<TicketStatus>)
    requires Consistent(db)
    ensures Consistent(Update(db, id, ttype, status).db)
  {
    var r := Update(db, id, ttype, status);
    if r.Ok? {
      TicketsKeepConsistent(db, r.db.tickets);
    }
  }

  /** Rewriting ticket rows while keeping their ids keeps the store consistent. */
  lemma TicketsKeepConsistent(db: Db, tickets: seq<Ticket>)
    requires Consistent(db)
    requires |tickets| == |db.tickets| && forall i | 0 <= i < |tickets| :: tickets[i].id == db.tickets[i].id
    ensures Consistent(db.(tickets := tickets))
  {
  }


  // ---- getAll and getById ----

  /** A row of tickets LEFT JOIN user_tickets: the ticket and, when it has
      one, a holder. */
  datatype TicketRow = TicketRow(ticket: Ticket, holder: Option<UserTicket>)

  /** The join rows of one ticket: one per holder, or one without a holder. */
  function RowsOf(t: Ticket, userTickets: seq<UserTicket>): (r: seq<TicketRow>)
    ensures |r| >= 1
    ensures forall row | row in r :: row.ticket == t
    ensures forall row | row in r && row.holder.Some? :: row.holder.value in userTickets && row.holder.value.ticketId == t.id
    ensures forall u | u in userTickets && u.ticketId == t.id :: TicketRow(t, Some(u)) in r
    ensures TicketRow(t, None) in r <==> forall u | u in userTickets :: u.ticketId != t.id
  {
    var held := Filter(userTickets, (u: UserTicket) => u.ticketId == t.id);
    if |held| == 0 then [TicketRow(t, None)]
    else
      var r := seq(|held|, i requires 0 <= i < |held| => TicketRow(t, Some(held[i])));
      assert forall u | u in held :: TicketRow(t, Some(u)) in r by {
        forall u | u in held ensures TicketRow(t, Some(u)) in r {
          var i :| 0 <= i < |held| && held[i] == u;
          assert r[i] == TicketRow(t, Some(u));
        }
      }
      assert TicketRow(t, None) !in r;
      assert held[0] in userTickets;
      r
  }

  /** `select().from(tickets).leftJoin(userTickets, ...)`. */
  function JoinHolders(tickets: seq<Ticket>, userTickets: seq<UserTicket>): seq<TicketRow>
  {
    if |tickets| == 0 then [] else RowsOf(tickets[0], userTickets) + JoinHolders(tickets[1..], userTickets)
  }

  /** A join row with a holder pairs a ticket with a user-ticket of it, and
      every such pair is a row. */
  lemma {:induction false} JoinHoldersMeaning(tickets: seq<Ticket>, userTickets: seq<UserTicket>, t: Ticket, u: UserTicket)
    ensures TicketRow(t, Some(u)) in JoinHolders(tickets, userTickets) <==>
      t in tickets && u in userTickets && u.ticketId == t.id
  {
    if |tickets| > 0 {
      JoinHoldersMeaning(tickets[1..], userTickets, t, u);
      assert t in tickets <==> t == tickets[0] || t in tickets[1..];
    }
  }

  /** The first join row of a ticket id carries the first ticket row of
      that id. */
  lemma {:induction false} JoinHoldersFirst(tickets: seq<Ticket>, userTickets: seq<UserTicket>, id: int)
    ensures var row := First(JoinHolders(tickets, userTickets), (row: TicketRow) => row.ticket.id == id);
      var t := First(tickets, (t: Ticket) => t.id == id);
      && (row.None? <==> t.None?)
      && (row.Some? ==> row.value.ticket == t.value)
  {
    if |tickets| > 0 {
      var p := (row: TicketRow) => row.ticket.id == id;
      var rows0 := RowsOf(tickets[0], userTickets);
      FirstConcat(rows0, JoinHolders(tickets[1..], userTickets), p);
      JoinHoldersFirst(tickets[1..], userTickets, id);
      if tickets[0].id == id {
        assert p(rows0[0]);
      } else {
        assert First(rows0, p).None?;
      }
    }
  }

  predicate Owns(c: Caller, row: TicketRow)
  {
    row.holder.Some? && row.holder.value.userId == c.sub
  }

  /** ADMIN and SECURITY see every join row; any other caller sees the rows
      whose holder is the caller. */
  function GetAll(db: Db, c: Caller): (r: seq<TicketRow>)
    ensures IsStaff(c) ==> r == JoinHolders(db.tickets, db.userTickets)
    ensures !IsStaff(c) ==> forall row | row in r :: Owns(c, row) && row in JoinHolders(db.tickets, db.userTickets)
    ensures !IsStaff(c) ==> forall row | row in JoinHolders(db.tickets, db.userTickets) && Owns(c, row) :: row in r
  {
    var rows := JoinHolders(db.tickets, db.userTickets);
    if IsStaff(c) then rows else Filter(rows, (row: TicketRow) => Owns(c, row))
  }

  /** A non-staff caller's listing holds exactly the caller's own tickets:
      (t, u) is listed iff t is a ticket, u a user-ticket of it, and u the
      caller's. */
  lemma GetAllOwnTickets(db: Db, c: Caller, t: Ticket, u: UserTicket)
    requires !IsStaff(c)
    ensures TicketRow(t, Some(u)) in GetAll(db, c) <==>
      t in db.tickets && u in db.userTickets && u.ticketId == t.id && u.userId == c.sub
  {
    JoinHoldersMeaning(db.tickets, db.userTickets, t, u);
  }

  /** The caller holds ticket `id`. */
  predicate Holds(db: Db, c: Caller, id: int)
  {
    exists i | 0 <= i < |db.userTickets| :: db.userTickets[i].ticketId == id && db.userTickets[i].userId == c.sub
  }

  /** The first join row of ticket `id`; a caller who is neither staff nor a
      holder of it is refused before the lookup. */
  function GetById(db: Db, c: Caller, id: int): (r: Result<TicketRow>)
    ensures !IsStaff(c) && !Holds(db, c, id) ==> r == Failure(Forbidden)
    ensures (IsStaff(c) || Holds(db, c, id)) && TicketById(db, id).None? ==> r == Failure(TicketNotFound)
    ensures r.Success? ==>
      && (IsStaff(c) || Holds(db, c, id))
      && r.value.ticket == TicketById(db, id).value
      && r.value in JoinHolders(db.tickets, db.userTickets)
  {
    JoinHoldersFirst(db.tickets, db.userTickets, id);
    if !IsStaff(c) && !Holds(db, c, id) then Failure(Forbidden)
    else match First(JoinHolders(db.tickets, db.userTickets), (row: TicketRow) => row.ticket.id == id)
      case None => Failure(TicketNotFound)
      case Some(row) => Success(row)
  }
}
