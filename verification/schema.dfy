/** The relational store (src/database/schema.ts) as an immutable value:
    each table a sequence of rows in insertion order, the price table a map
    keyed by its primary key, and the autoincrement counters explicit. */
module Schema {
  import opened Types
  import opened Calendar
  import opened Fee

  datatype Section = Section(id: int, name: string, capacity: int)

  datatype Vehicle = Vehicle(id: int, plate: string, vtype: VehicleType)

  datatype Ticket = Ticket(id: int, ttype: TicketType, status: TicketStatus)

  /** A user's hold on a ticket, bound to one vehicle. `validTo` is read by
      the services although the table declares no such column, and no
      service writes it: a row inserted by ticket creation holds NULL. */
  datatype UserTicket = UserTicket(userId: int, ticketId: int, vehicleId: int, validTo: Option<Time>)
  {
    /** `gt(validTo, now)`: a NULL compares false. */
    predicate ValidAfter(now: Time) { validTo.Some? && validTo.value > now }

    /** `lt(validTo, now)`: a NULL compares false. */
    predicate ExpiredBefore(now: Time) { validTo.Some? && validTo.value < now }

    /** `new Date(validTo)`: a NULL reads as the epoch, instant 0. */
    function ValidToInstant(): Time { if validTo.Some? then validTo.value else 0 }
  }

  datatype Reservation = Reservation(ticketId: int, sectionId: int, slot: int)

  /** A history row: open while `checkedOutAt` is None. */
  datatype Session = Session(
    id: int, sectionId: int, vehicleId: int, ticketId: int,
    checkedInAt: Time, checkedOutAt: Option<Time>, fee: Option<real>)
  {
    predicate Open() { checkedOutAt.None? }
  }

  /** Every stored fee is positive: check-out stores a non-positive fee as
      null, and check-in stores none. */
  predicate PositiveFees(history: seq<Session>)
  {
    forall i | 0 <= i < |history| :: history[i].fee.Some? ==> history[i].fee.value > 0.0
  }

  datatype Privilege = Privilege(userId: int, sectionId: int)

  /** "You have been granted access to section <sectionName>" from one user to another. */
  datatype Notification = Notification(from: int, to: int, sectionName: string)

  datatype Transaction = Transaction(id: int, userId: int, amount: real, month: int, year: int, status: TransactionStatus)

  datatype Db = Db(
    users: set<int>,
    sections: seq<Section>,
    vehicles: seq<Vehicle>,
    tickets: seq<Ticket>,
    prices: Prices,
    userTickets: seq<UserTicket>,
    reservations: seq<Reservation>,
    history: seq<Session>,
    privileges: set<Privilege>,
    notifications: seq<Notification>,
    transactions: seq<Transaction>,
    nextVehicleId: int,
    nextTicketId: int,
    nextSessionId: int,
    nextTransactionId: int)

  /** The outcome of a service call: the value or the error, and the store
      as the call leaves it. An error normally leaves the store as it found
      it; a write committed before the failing step survives it. */
  datatype Reply<+T> = Ok(value: T, db: Db) | Err(error: Error, db: Db)

  // ---- Row queries ----

  /** The first row satisfying `p`: `const [row] = await select().where(p)`. */
  function First<T>(s: seq<T>, p: T -> bool): (r: Option<T>)
    ensures r.None? <==> forall i | 0 <= i < |s| :: !p(s[i])
    ensures r.Some? ==> exists i | 0 <= i < |s| :: s[i] == r.value && p(s[i]) && forall j | 0 <= j < i :: !p(s[j])
  {
    if |s| == 0 then None
    else if p(s[0]) then Some(s[0])
    else
      var r := First(s[1..], p);
      assert forall i | 1 <= i < |s| :: s[i] == s[1..][i - 1];
      r
  }

  /** The rows satisfying `keep`, in order. */
  function Filter<T>(s: seq<T>, keep: T -> bool): (r: seq<T>)
    ensures |r| <= |s|
    ensures forall x | x in r :: x in s && keep(x)
    ensures forall x | x in s && keep(x) :: x in r
  {
    if |s| == 0 then []
    else if keep(s[0]) then [s[0]] + Filter(s[1..], keep)
    else Filter(s[1..], keep)
  }

  /** `select count()`: the number of rows satisfying `p`. */
  function Count<T>(s: seq<T>, p: T -> bool): (n: nat)
    ensures n <= |s|
    ensures n == 0 <==> forall i | 0 <= i < |s| :: !p(s[i])
  {
    if |s| == 0 then 0
    else
      assert forall i | 1 <= i < |s| :: s[i] == s[1..][i - 1];
      (if p(s[0]) then 1 else 0) + Count(s[1..], p)
  }

  lemma {:induction false} CountAppend<T>(s: seq<T>, t: seq<T>, p: T -> bool)
    ensures Count(s + t, p) == Count(s, p) + Count(t, p)
  {
    if |s| > 0 {
      assert (s + t)[1..] == s[1..] + t;
      CountAppend(s[1..], t, p);
    } else {
      assert s + t == t;
    }
  }

  /** Counting is unaffected by rows the predicate does not see change. */
  lemma {:induction false} CountSame<T>(s: seq<T>, t: seq<T>, p: T -> bool, q: T -> bool)
    requires |s| == |t|
    requires forall i | 0 <= i < |s| :: p(s[i]) == q(t[i])
    ensures Count(s, p) == Count(t, q)
  {
    if |s| > 0 {
      assert forall i | 0 <= i < |s| - 1 :: s[1..][i] == s[i + 1] && t[1..][i] == t[i + 1];
      CountSame(s[1..], t[1..], p, q);
    }
  }

  /** The sum of `f` over the rows: a `count()` over a join, row by row. */
  function Sum<T>(s: seq<T>, f: T -> nat): nat
  {
    if |s| == 0 then 0 else f(s[0]) + Sum(s[1..], f)
  }

  lemma {:induction false} SumAppend<T>(s: seq<T>, t: seq<T>, f: T -> nat)
    ensures Sum(s + t, f) == Sum(s, f) + Sum(t, f)
  {
    if |s| > 0 {
      assert (s + t)[1..] == s[1..] + t;
      SumAppend(s[1..], t, f);
    } else {
      assert s + t == t;
    }
  }

  lemma {:induction false} SumSame<T>(s: seq<T>, t: seq<T>, f: T -> nat, g: T -> nat)
    requires |s| == |t|
    requires forall i | 0 <= i < |s| :: f(s[i]) == g(t[i])
    ensures Sum(s, f) == Sum(t, g)
  {
    if |s| > 0 {
      assert forall i | 0 <= i < |s| - 1 :: s[1..][i] == s[i + 1] && t[1..][i] == t[i + 1];
      SumSame(s[1..], t[1..], f, g);
    }
  }

  /** A join whose inner side matches each row at most once counts the rows
      that have a match. */
  lemma {:induction false} SumOfIndicator<T>(s: seq<T>, f: T -> nat, p: T -> bool)
    requires forall i | 0 <= i < |s| :: f(s[i]) == if p(s[i]) then 1 else 0
    ensures Sum(s, f) == Count(s, p)
  {
    if |s| > 0 {
      assert forall i | 0 <= i < |s| - 1 :: s[1..][i] == s[i + 1];
      SumOfIndicator(s[1..], f, p);
    }
  }

  /** Deleting rows keeps a key unique. */
  lemma {:induction false} FilterKeepsDistinct<T, K>(s: seq<T>, keep: T -> bool, key: T -> K)
    requires DistinctBy(s, key)
    ensures DistinctBy(Filter(s, keep), key)
  {
    if |s| > 0 {
      assert forall i, j | 0 <= i < j < |s| - 1 :: s[1..][i] == s[i + 1] && s[1..][j] == s[j + 1];
      FilterKeepsDistinct(s[1..], keep, key);
      if keep(s[0]) {
        var r := Filter(s, keep);
        var t := Filter(s[1..], keep);
        assert r == [s[0]] + t;
        forall j | 0 < j < |r|
          ensures key(r[0]) != key(r[j])
        {
          assert r[j] == t[j - 1] && t[j - 1] in s[1..];
        }
      }
    }
  }

  /** A row with a key no row has keeps the key unique when appended. */
  lemma AppendKeepsDistinct<T, K>(s: seq<T>, x: T, key: T -> K)
    requires DistinctBy(s, key)
    requires forall i | 0 <= i < |s| :: key(s[i]) != key(x)
    ensures DistinctBy(s + [x], key)
  {
  }

  /** The first match in a concatenation lies in the left part when it has one. */
  lemma {:induction false} FirstConcat<T>(s: seq<T>, t: seq<T>, p: T -> bool)
    ensures First(s + t, p) == if First(s, p).Some? then First(s, p) else First(t, p)
  {
    if |s| > 0 {
      assert (s + t)[1..] == s[1..] + t;
      FirstConcat(s[1..], t, p);
    } else {
      assert s + t == t;
    }
  }

  /** A row appended to a table is found only when no earlier row matches. */
  /** The first match is at `k` when `k` matches and nothing before it does. */
  lemma FirstAt<T>(s: seq<T>, p: T -> bool, k: int)
    requires 0 <= k < |s| && p(s[k])
    requires forall j | 0 <= j < k :: !p(s[j])
    ensures First(s, p) == Some(s[k])
  {
    var i :| 0 <= i < |s| && s[i] == First(s, p).value && p(s[i]) && forall j | 0 <= j < i :: !p(s[j]);
    assert !(i < k) && !(k < i);
  }

  lemma FirstAppend<T>(s: seq<T>, x: T, p: T -> bool)
    ensures First(s + [x], p) == if First(s, p).Some? then First(s, p) else if p(x) then Some(x) else None
  {
    if |s| > 0 {
      assert (s + [x])[1..] == s[1..] + [x];
      FirstAppend(s[1..], x, p);
    }
  }

  /** Rows that pairwise exclude each other are counted at most once. */
  lemma {:induction false} CountAtMostOne<T>(s: seq<T>, p: T -> bool)
    requires forall i, j | 0 <= i < j < |s| :: !(p(s[i]) && p(s[j]))
    ensures Count(s, p) <= 1
  {
    if |s| > 0 {
      assert forall i, j | 0 <= i < j < |s| - 1 :: s[1..][i] == s[i + 1] && s[1..][j] == s[j + 1];
      CountAtMostOne(s[1..], p);
      if p(s[0]) {
        assert forall i | 0 <= i < |s| - 1 :: s[1..][i] == s[i + 1] && !p(s[1..][i]);
      }
    }
  }

  function TicketById(db: Db, id: int): Option<Ticket>
  {
    First(db.tickets, (t: Ticket) => t.id == id)
  }

  function VehicleById(db: Db, id: int): Option<Vehicle>
  {
    First(db.vehicles, (v: Vehicle) => v.id == id)
  }

  function VehicleByPlate(db: Db, plate: string): Option<Vehicle>
  {
    First(db.vehicles, (v: Vehicle) => v.plate == plate)
  }

  function SectionById(db: Db, id: int): Option<Section>
  {
    First(db.sections, (s: Section) => s.id == id)
  }

  /** The first user-ticket row of a ticket (`where userTickets.ticketId = id`). */
  function HolderOf(db: Db, ticketId: int): Option<UserTicket>
  {
    First(db.userTickets, (u: UserTicket) => u.ticketId == ticketId)
  }

  predicate HasTicket(db: Db, id: int)
  {
    exists i | 0 <= i < |db.tickets| :: db.tickets[i].id == id
  }

  /** The ticket table with every row of `id` given `status`. */
  function SetStatus(tickets: seq<Ticket>, id: int, status: TicketStatus): (r: seq<Ticket>)
    ensures |r| == |tickets|
    ensures forall i | 0 <= i < |r| :: r[i].id == tickets[i].id && r[i].ttype == tickets[i].ttype
    ensures forall i | 0 <= i < |r| :: r[i].status == (if tickets[i].id == id then status else tickets[i].status)
  {
    seq(|tickets|, i requires 0 <= i < |tickets| =>
      if tickets[i].id == id then tickets[i].(status := status) else tickets[i])
  }

  // ---- Keys and constraints of the schema ----

  predicate UniqueTicketIds(tickets: seq<Ticket>)
  {
    forall i, j | 0 <= i < j < |tickets| :: tickets[i].id != tickets[j].id
  }

  /** Primary key of tickets, and ids below the autoincrement counter. */
  predicate TicketKeys(db: Db)
  {
    && UniqueTicketIds(db.tickets)
    && (forall i | 0 <= i < |db.tickets| :: db.tickets[i].id < db.nextTicketId)
  }

  /** Primary key and unique plate of vehicles. */
  predicate VehicleKeys(db: Db)
  {
    && (forall i, j | 0 <= i < j < |db.vehicles| :: db.vehicles[i].id != db.vehicles[j].id)
    && (forall i, j | 0 <= i < j < |db.vehicles| :: db.vehicles[i].plate != db.vehicles[j].plate)
    && (forall i | 0 <= i < |db.vehicles| :: db.vehicles[i].id < db.nextVehicleId)
  }

  /** Primary key and unique name of sections. */
  predicate SectionKeys(db: Db)
  {
    && (forall i, j | 0 <= i < j < |db.sections| :: db.sections[i].id != db.sections[j].id)
    && (forall i, j | 0 <= i < j < |db.sections| :: db.sections[i].name != db.sections[j].name)
  }

  /** No two rows share a key. */
  predicate DistinctBy<T, K(==)>(s: seq<T>, key: T -> K)
  {
    forall i, j | 0 <= i < j < |s| :: key(s[i]) != key(s[j])
  }

  function SlotKey(r: Reservation): (int, int)
  {
    (r.sectionId, r.slot)
  }

  /** A reservation is keyed by (sectionId, slot). */
  predicate ReservationKeys(db: Db)
  {
    DistinctBy(db.reservations, SlotKey)
  }

  /** A user-ticket is keyed by (userId, ticketId). */
  predicate HolderKeys(db: Db)
  {
    forall i, j | 0 <= i < j < |db.userTickets| ::
      (db.userTickets[i].userId, db.userTickets[i].ticketId) != (db.userTickets[j].userId, db.userTickets[j].ticketId)
  }

  /** History ids are unique and below the counter standing in for fresh UUIDs. */
  predicate SessionKeys(db: Db)
  {
    && (forall i, j | 0 <= i < j < |db.history| :: db.history[i].id != db.history[j].id)
    && (forall i | 0 <= i < |db.history| :: db.history[i].id < db.nextSessionId)
  }

  predicate TransactionKeys(db: Db)
  {
    && (forall i, j | 0 <= i < j < |db.transactions| :: db.transactions[i].id != db.transactions[j].id)
    && (forall i | 0 <= i < |db.transactions| :: db.transactions[i].id < db.nextTransactionId)
  }

  predicate Keys(db: Db)
  {
    && TicketKeys(db) && VehicleKeys(db) && SectionKeys(db) && ReservationKeys(db)
    && HolderKeys(db) && SessionKeys(db) && TransactionKeys(db)
  }

  /** The session discipline of check-in and check-out: a ticket has at most
      one open session, and a ticket has an open session exactly when it is
      INUSE. */
  predicate SessionsConsistent(db: Db)
  {
    && (forall i, j | 0 <= i < j < |db.history| && db.history[i].Open() && db.history[j].Open() ::
          db.history[i].ticketId != db.history[j].ticketId)
    && (forall i, k | 0 <= i < |db.history| && 0 <= k < |db.tickets| ::
          db.history[i].Open() && db.history[i].ticketId == db.tickets[k].id ==> db.tickets[k].status == InUse)
    && (forall k | 0 <= k < |db.tickets| && db.tickets[k].status == InUse :: HasOpenSession(db.history, db.tickets[k].id))
  }

  /** Some session of the ticket is still open. */
  predicate HasOpenSession(history: seq<Session>, ticketId: int)
  {
    exists i | 0 <= i < |history| :: history[i].Open() && history[i].ticketId == ticketId
  }

  /** In a table without duplicate ids, the first row with an id is the only one. */
  lemma TicketByIdUnique(db: Db, k: int)
    requires TicketKeys(db) && 0 <= k < |db.tickets|
    ensures TicketById(db, db.tickets[k].id) == Some(db.tickets[k])
  {
  }
}
