/** Monthly billing, the paginated transaction listing and the partial
    transaction update (src/modules/transaction/transaction.service.ts). */
module Billing {
  import opened Types
  import opened Calendar
  import opened Fee
  import opened Schema

  // ---- createTransaction ----

  /** A bill before it is inserted: the user, the amount, the month (1..12)
      and the year of the run. */
  datatype Bill = Bill(userId: int, amount: real, month: int, year: int)

  /** MONTHLY and RESERVED tickets that are neither LOST nor CANCELED are billed. */
  predicate Billable(t: Ticket)
  {
    (t.ttype == Monthly || t.ttype == Reserved) && t.status != Lost && t.status != Canceled
  }

  /** The prices of the rows the join matches on the ticket type alone:
      one per vehicle type priced for that ticket type. */
  function PriceRowsAsWritten(prices: Prices, ttype: TicketType): (r: seq<real>)
    ensures |r| == (if (ttype, Car) in prices then 1 else 0) + (if (ttype, Motorbike) in prices then 1 else 0)
    ensures forall x :: x in r <==>
      || ((ttype, Car) in prices && x == prices[(ttype, Car)])
      || ((ttype, Motorbike) in prices && x == prices[(ttype, Motorbike)])
  {
    (if (ttype, Car) in prices then [prices[(ttype, Car)]] else [])
      + (if (ttype, Motorbike) in prices then [prices[(ttype, Motorbike)]] else [])
  }

  /** The price rows one user-ticket contributes to the query as written:
      none when its ticket is missing (the WHERE on `tickets.type` drops the
      NULL row) or not billable; the vehicle is never read. */
  function PricesOf(db: Db, u: UserTicket): (r: seq<real>)
    ensures TicketById(db, u.ticketId).None? ==> r == []
    ensures TicketById(db, u.ticketId).Some? && !Billable(TicketById(db, u.ticketId).value) ==> r == []
    ensures TicketById(db, u.ticketId).Some? && Billable(TicketById(db, u.ticketId).value) ==>
      r == PriceRowsAsWritten(db.prices, TicketById(db, u.ticketId).value.ttype)
  {
    match TicketById(db, u.ticketId)
    case None => []
    case Some(t) => if Billable(t) then PriceRowsAsWritten(db.prices, t.ttype) else []
  }

  /** The bills of one user-ticket as written, one per matched price row. */
  function BillsOfHolder(db: Db, u: UserTicket, month: int, year: int): (r: seq<Bill>)
    ensures |r| == |PricesOf(db, u)|
    ensures forall i | 0 <= i < |r| :: r[i] == Bill(u.userId, PricesOf(db, u)[i], month, year)
  {
    var ps := PricesOf(db, u);
    seq(|ps|, i requires 0 <= i < |ps| => Bill(u.userId, ps[i], month, year))
  }

  /** The bills of the query as written, one per (user-ticket, price row). */
  function BillsAsWritten(db: Db, userTickets: seq<UserTicket>, month: int, year: int): (r: seq<Bill>)
    ensures |r| == Sum(userTickets, (u: UserTicket) => |PricesOf(db, u)|)
  {
    if |userTickets| == 0 then []
    else BillsOfHolder(db, userTickets[0], month, year) + BillsAsWritten(db, userTickets[1..], month, year)
  }

  /** A bill of the query as written is a holder's user id with one of the
      prices matched to that holder's ticket, dated with the run. */
  lemma {:induction false} BillsAsWrittenMeaning(db: Db, userTickets: seq<UserTicket>, month: int, year: int, b: Bill)
    ensures b in BillsAsWritten(db, userTickets, month, year) <==>
      && b.month == month && b.year == year
      && exists i | 0 <= i < |userTickets| :: b.userId == userTickets[i].userId && b.amount in PricesOf(db, userTickets[i])
  {
    if |userTickets| > 0 {
      var u := userTickets[0];
      var here := BillsOfHolder(db, u, month, year);
      BillsAsWrittenMeaning(db, userTickets[1..], month, year, b);
      assert forall i | 1 <= i < |userTickets| :: userTickets[i] == userTickets[1..][i - 1];
      assert b in here <==> b.month == month && b.year == year && b.userId == u.userId && b.amount in PricesOf(db, u) by {
        if b in here {
          var k :| 0 <= k < |here| && here[k] == b;
          assert b.amount == PricesOf(db, u)[k];
        }
        if b.month == month && b.year == year && b.userId == u.userId && b.amount in PricesOf(db, u) {
          var k :| 0 <= k < |PricesOf(db, u)| && PricesOf(db, u)[k] == b.amount;
          assert here[k] == b;
        }
      }
      if b.month == month && b.year == year {
        if exists i | 0 <= i < |userTickets| :: b.userId == userTickets[i].userId && b.amount in PricesOf(db, userTickets[i]) {
          var i :| 0 <= i < |userTickets| && b.userId == userTickets[i].userId && b.amount in PricesOf(db, userTickets[i]);
          if i > 0 {
            assert b.userId == userTickets[1..][i - 1].userId && b.amount in PricesOf(db, userTickets[1..][i - 1]);
          }
        }
      }
    }
  }

  /** The bill of one user-ticket priced by its own vehicle's type: none
      when the ticket is missing or not billable, the vehicle is missing,
      or no price row exists for (ticket type, vehicle type). */
  function BillOf(db: Db, u: UserTicket, month: int, year: int): Option<Bill>
  {
    match TicketById(db, u.ticketId)
    case None => None
    case Some(t) =>
      if !Billable(t) then None
      else match VehicleById(db, u.vehicleId)
        case None => None
        case Some(v) =>
          if (t.ttype, v.vtype) in db.prices then Some(Bill(u.userId, db.prices[(t.ttype, v.vtype)], month, year))
          else None
  }

  /** The bills with the join on the vehicle type as well. */
  function Bills(db: Db, userTickets: seq<UserTicket>, month: int, year: int): (r: seq<Bill>)
    ensures |r| == Count(userTickets, (u: UserTicket) => BillOf(db, u, month, year).Some?)
  {
    if |userTickets| == 0 then []
    else
      var rest := Bills(db, userTickets[1..], month, year);
      match BillOf(db, userTickets[0], month, year)
      case None => rest
      case Some(b) => [b] + rest
  }

  /** A bill is produced exactly for each user-ticket that has one. */
  lemma {:induction false} BillsMeaning(db: Db, userTickets: seq<UserTicket>, month: int, year: int, b: Bill)
    ensures b in Bills(db, userTickets, month, year) <==>
      exists i | 0 <= i < |userTickets| :: BillOf(db, userTickets[i], month, year) == Some(b)
  {
    if |userTickets| > 0 {
      BillsMeaning(db, userTickets[1..], month, year, b);
      assert forall i | 1 <= i < |userTickets| :: userTickets[i] == userTickets[1..][i - 1];
      if exists i | 0 <= i < |userTickets| :: BillOf(db, userTickets[i], month, year) == Some(b) {
        var i :| 0 <= i < |userTickets| && BillOf(db, userTickets[i], month, year) == Some(b);
        if i > 0 {
          assert BillOf(db, userTickets[1..][i - 1], month, year) == Some(b);
        }
      }
    }
  }

  /** Each bill names a holder of a billable ticket and charges the price
      of that ticket's class for that holder's vehicle. */
  lemma BillCharges(db: Db, u: UserTicket, month: int, year: int)
    requires BillOf(db, u, month, year).Some?
    ensures var b := BillOf(db, u, month, year).value;
      && TicketById(db, u.ticketId).Some? && Billable(TicketById(db, u.ticketId).value)
      && VehicleById(db, u.vehicleId).Some?
      && b.userId == u.userId && b.month == month && b.year == year
      && b.amount == db.prices[(TicketById(db, u.ticketId).value.ttype, VehicleById(db, u.vehicleId).value.vtype)]
  {
  }

  /** The rows inserted for `bills`, with fresh ids and status PENDING. */
  function Insertions(start: int, bills: seq<Bill>): (r: seq<Transaction>)
    ensures |r| == |bills|
    ensures forall i | 0 <= i < |bills| ::
      r[i] == Transaction(start + i, bills[i].userId, bills[i].amount, bills[i].month, bills[i].year, Pending)
  {
    seq(|bills|, i requires 0 <= i < |bills| =>
      Transaction(start + i, bills[i].userId, bills[i].amount, bills[i].month, bills[i].year, Pending))
  }

  /** The insert of `bills` as PENDING transactions with fresh ids;
      nothing is inserted when there is no bill (the early return). */
  function InsertBills(db: Db, bills: seq<Bill>): (r: Db)
    ensures |bills| == 0 ==> r == db
    ensures r == db.(transactions := db.transactions + Insertions(db.nextTransactionId, bills),
                     nextTransactionId := db.nextTransactionId + |bills|)
  {
    if |bills| == 0 then db
    else db.(transactions := db.transactions + Insertions(db.nextTransactionId, bills),
             nextTransactionId := db.nextTransactionId + |bills|)
  }

  /** The run for one month as written: one PENDING transaction per
      (user-ticket, price row) of the join on the ticket type. */
  function Run(db: Db, month: int, year: int): (r: Db)
    ensures r == db.(transactions := r.transactions, nextTransactionId := r.nextTransactionId)
    ensures |r.transactions| == |db.transactions| + Sum(db.userTickets, (u: UserTicket) => |PricesOf(db, u)|)
    ensures r.transactions[..|db.transactions|] == db.transactions
    ensures Sum(db.userTickets, (u: UserTicket) => |PricesOf(db, u)|) == 0 ==> r == db
  {
    InsertBills(db, BillsAsWritten(db, db.userTickets, month, year))
  }

  /** The monthly run at `now`, dated with the calendar month (1..12) and
      year of `now`. */
  function CreateTransaction(db: Db, now: Time): (r: Db)
    ensures var dt := ToCivil(now);
      && 1 <= dt.month <= 12
      && r == Run(db, dt.month, dt.year)
  {
    var dt := ToCivil(now);
    Run(db, dt.month, dt.year)
  }

  /** Every transaction the run inserts is PENDING, dated with the run's
      month and year, carries the user of some user-ticket and one of the
      prices matched to that user-ticket's ticket type; the ids continue
      from the counter. */
  lemma RunBillsHolders(db: Db, month: int, year: int, i: int)
    requires |db.transactions| <= i < |Run(db, month, year).transactions|
    ensures var t := Run(db, month, year).transactions[i];
      && t.id == db.nextTransactionId + (i - |db.transactions|)
      && t.status == Pending && t.month == month && t.year == year
      && exists k | 0 <= k < |db.userTickets| :: t.userId == db.userTickets[k].userId && t.amount in PricesOf(db, db.userTickets[k])
  {
    var t := Run(db, month, year).transactions[i];
    RunInserts(db, month, year, i);
    BillsAsWrittenMeaning(db, db.userTickets, month, year, Bill(t.userId, t.amount, t.month, t.year));
  }

  /** Row i of the run's new rows is bill i - |transactions| of the query
      as written, with the next id. */
  lemma RunInserts(db: Db, month: int, year: int, i: int)
    requires |db.transactions| <= i < |Run(db, month, year).transactions|
    ensures var t := Run(db, month, year).transactions[i];
      && t.id == db.nextTransactionId + (i - |db.transactions|)
      && t.status == Pending
      && Bill(t.userId, t.amount, t.month, t.year) == BillsAsWritten(db, db.userTickets, month, year)[i - |db.transactions|]
  {
    InsertionsAt(db.transactions, db.nextTransactionId, BillsAsWritten(db, db.userTickets, month, year), i);
  }

  /** The run keeps transaction ids unique and below the counter. */
  lemma RunKeepsTransactionKeys(db: Db, month: int, year: int)
    requires TransactionKeys(db)
    ensures TransactionKeys(Run(db, month, year))
  {
    var r := Run(db, month, year);
    var n := |db.transactions|;
    forall i | n <= i < |r.transactions|
      ensures n <= i ==> db.nextTransactionId <= r.transactions[i].id < r.nextTransactionId
    {
      RunInserts(db, month, year, i);
    }
    assert forall i | 0 <= i < n :: r.transactions[i] == db.transactions[i];
  }

  /** The corrected run: prices joined on the vehicle type as well, one
      PENDING transaction per user-ticket that has a price. */
  function RunCorrected(db: Db, month: int, year: int): (r: Db)
    ensures r == db.(transactions := r.transactions, nextTransactionId := r.nextTransactionId)
    ensures |r.transactions| == |db.transactions| + Count(db.userTickets, (u: UserTicket) => BillOf(db, u, month, year).Some?)
    ensures r.transactions[..|db.transactions|] == db.transactions
  {
    InsertBills(db, Bills(db, db.userTickets, month, year))
  }

  /** Every transaction the corrected run inserts is PENDING, dated with the
      run, and is the bill of some user-ticket at its own vehicle's price. */
  lemma RunCorrectedBillsHolders(db: Db, month: int, year: int, i: int)
    requires |db.transactions| <= i < |RunCorrected(db, month, year).transactions|
    ensures var t := RunCorrected(db, month, year).transactions[i];
      && t.id == db.nextTransactionId + (i - |db.transactions|)
      && t.status == Pending && t.month == month && t.year == year
      && exists k | 0 <= k < |db.userTickets| ::
        BillOf(db, db.userTickets[k], month, year) == Some(Bill(t.userId, t.amount, t.month, t.year))
  {
    var bills := Bills(db, db.userTickets, month, year);
    var t := RunCorrected(db, month, year).transactions[i];
    InsertionsAt(db.transactions, db.nextTransactionId, bills, i);
    BillsMeaning(db, db.userTickets, month, year, Bill(t.userId, t.amount, t.month, t.year));
  }

  /** Row i after appending the insertions of `bills` to `ts`. */
  lemma InsertionsAt(ts: seq<Transaction>, start: int, bills: seq<Bill>, i: int)
    requires |ts| <= i < |ts| + |bills|
    ensures var t := (ts + Insertions(start, bills))[i];
      && t.id == start + (i - |ts|)
      && t.status == Pending
      && Bill(t.userId, t.amount, t.month, t.year) == bills[i - |ts|]
  {
  }

  /** As written, a MONTHLY ticket of a motorbike is billed twice when both
      vehicle types are priced, once at the car price; priced by vehicle
      type it is billed once, at the motorbike price. */
  lemma BillsOncePerVehicleType(db: Db, u: UserTicket, t: Ticket, v: Vehicle, month: int, year: int)
    requires db.userTickets == [u]
    requires TicketById(db, u.ticketId) == Some(t) && t.ttype == Monthly && t.status == Available
    requires VehicleById(db, u.vehicleId) == Some(v) && v.vtype == Motorbike
    requires (Monthly, Car) in db.prices && (Monthly, Motorbike) in db.prices
    ensures BillsAsWritten(db, db.userTickets, month, year) ==
      [Bill(u.userId, db.prices[(Monthly, Car)], month, year), Bill(u.userId, db.prices[(Monthly, Motorbike)], month, year)]
    ensures Bills(db, db.userTickets, month, year) == [Bill(u.userId, db.prices[(Monthly, Motorbike)], month, year)]
    ensures |Run(db, month, year).transactions| == |db.transactions| + 2
    ensures |RunCorrected(db, month, year).transactions| == |db.transactions| + 1
  {
    assert db.userTickets[1..] == [];
  }

  // ---- getAll ----

  /** Descending by id. */
  predicate SortedDesc(s: seq<Transaction>)
  {
    forall i, j | 0 <= i < j < |s| :: s[i].id >= s[j].id
  }

  function InsertDesc(x: Transaction, s: seq<Transaction>): (r: seq<Transaction>)
    requires SortedDesc(s)
    ensures SortedDesc(r)
    ensures multiset(r) == multiset(s) + multiset{x}
    ensures |r| == |s| + 1
  {
    if |s| == 0 || x.id >= s[0].id then [x] + s
    else
      var rest := InsertDesc(x, s[1..]);
      PrependDesc(s, x, rest);
      [s[0]] + rest
  }

  /** The head of a sorted list stays in front of its tail with `x` inserted. */
  lemma PrependDesc(s: seq<Transaction>, x: Transaction, rest: seq<Transaction>)
    requires SortedDesc(s) && |s| > 0 && x.id < s[0].id
    requires SortedDesc(rest) && multiset(rest) == multiset(s[1..]) + multiset{x}
    ensures SortedDesc([s[0]] + rest)
    ensures multiset([s[0]] + rest) == multiset(s) + multiset{x}
  {
    assert s == [s[0]] + s[1..];
    forall j | 0 <= j < |rest| ensures s[0].id >= rest[j].id {
      assert rest[j] in multiset(rest);
      if rest[j] != x {
        assert rest[j] in multiset(s[1..]);
        var m :| 0 <= m < |s[1..]| && s[1..][m] == rest[j];
        assert s[m + 1] == rest[j];
      }
    }
  }

  /** `orderBy(desc(transactions.id))`. */
  function SortDesc(s: seq<Transaction>): (r: seq<Transaction>)
    ensures SortedDesc(r)
    ensures multiset(r) == multiset(s)
  {
    if |s| == 0 then []
    else
      assert s == [s[0]] + s[1..];
      InsertDesc(s[0], SortDesc(s[1..]))
  }

  /** `.limit(limit).offset(offset)` on SQLite: a negative offset reads as
      0 and a negative limit as no limit. */
  function Window(s: seq<Transaction>, offset: int, limit: int): (r: seq<Transaction>)
    ensures var start := if offset < 0 then 0 else offset;
      && (start >= |s| ==> r == [])
      && (start < |s| && (limit < 0 || start + limit >= |s|) ==> r == s[start..])
      && (start < |s| && 0 <= limit && start + limit < |s| ==> r == s[start..start + limit])
    ensures limit >= 0 ==> |r| <= limit
    ensures forall t | t in r :: t in s
    ensures SortedDesc(s) ==> SortedDesc(r)
  {
    var start := if offset < 0 then 0 else offset;
    if start >= |s| then []
    else if limit < 0 || start + limit >= |s| then s[start..]
    else s[start..start + limit]
  }

  /** `Math.ceil(total / limit)`; dividing by zero gives Infinity or NaN,
      which serialise as null. */
  function PageCount(total: nat, limit: int): (r: Option<int>)
    ensures r.None? <==> limit == 0
    ensures limit > 0 ==> r.value * limit >= total && (r.value - 1) * limit < total
    ensures limit < 0 ==> r.value <= 0
  {
    if limit == 0 then None
    else if limit > 0 then Some((total + limit - 1) / limit)
    else Some(-(total / -limit))
  }

  /** The transactions the caller may list: all for ADMIN, their own
      otherwise. */
  function Visible(db: Db, c: Caller): (r: seq<Transaction>)
    ensures forall t | t in r :: t in db.transactions
    ensures c.role != Admin ==> forall t | t in r :: t.userId == c.sub
    ensures c.role != Admin ==> forall t | t in db.transactions && t.userId == c.sub :: t in r
    ensures c.role == Admin ==> r == db.transactions
  {
    if c.role == Admin then db.transactions
    else Filter(db.transactions, (t: Transaction) => t.userId == c.sub)
  }

  /** The listing: the visible transactions newest id first, page `page`
      of `limit` rows, and the page count. */
  function GetAll(db: Db, c: Caller, page: int, limit: int): (r: (Option<int>, seq<Transaction>))
    ensures r.0 == PageCount(|Visible(db, c)|, limit)
    ensures r.1 == Window(SortDesc(Visible(db, c)), (page - 1) * limit, limit)
    ensures c.role != Admin ==> forall t | t in r.1 :: t.userId == c.sub
    ensures forall t | t in r.1 :: t in db.transactions
    ensures limit >= 0 ==> |r.1| <= limit
    ensures SortedDesc(r.1)
  {
    var visible := Visible(db, c);
    var sorted := SortDesc(visible);
    var data := Window(sorted, (page - 1) * limit, limit);
    assert forall t | t in sorted :: t in visible by {
      forall t | t in sorted ensures t in visible {
        assert t in multiset(sorted);
      }
    }
    (PageCount(|visible|, limit), data)
  }

  /** With a positive limit every row sits on exactly one page: row i of
      the ordering is row i % limit of page i / limit + 1. */
  lemma RowOnItsPage(s: seq<Transaction>, limit: int, i: int)
    requires limit > 0 && 0 <= i < |s|
    ensures var page := i / limit + 1;
      && |Window(s, (page - 1) * limit, limit)| > i % limit
      && Window(s, (page - 1) * limit, limit)[i % limit] == s[i]
  {
    PageStart(i, limit);
    var start := (i / limit + 1 - 1) * limit;
    var w := Window(s, start, limit);
    assert w == s[start..] || w == s[start..start + limit];
  }

  /** Page i div limit + 1 starts at a row at or before i, less than one
      page before it. */
  lemma PageStart(i: int, limit: int)
    requires limit > 0 && i >= 0
    ensures var start := (i / limit + 1 - 1) * limit;
      0 <= start <= i && i - start == i % limit && i % limit < limit
  {
    var q := i / limit;
    assert (q + 1 - 1) * limit == q * limit;
    assert q * limit + i % limit == i;
  }

  // ---- update ----

  /** `!amount`: an amount of 0 counts as missing. */
  predicate AmountGiven(amount: Option<real>) { amount.Some? && amount.value != 0.0 }

  /** The row with `amount ?? old` and `status ?? old`. */
  function Revise(t: Transaction, amount: Option<real>, status: Option<TransactionStatus>): Transaction
  {
    t.(amount := if amount.Some? then amount.value else t.amount,
       status := if status.Some? then status.value else t.status)
  }

  /** `update(...).where(eq(transactions.id, id))`. */
  function ReviseAll(ts: seq<Transaction>, id: int, amount: Option<real>, status: Option<TransactionStatus>): (r: seq<Transaction>)
    ensures |r| == |ts|
    ensures forall i | 0 <= i < |ts| :: r[i] == if ts[i].id == id then Revise(ts[i], amount, status) else ts[i]
  {
    if |ts| == 0 then []
    else [if ts[0].id == id then Revise(ts[0], amount, status) else ts[0]] + ReviseAll(ts[1..], id, amount, status)
  }

  function TransactionById(db: Db, id: int): Option<Transaction>
  {
    First(db.transactions, (t: Transaction) => t.id == id)
  }

  function Update(db: Db, id: int, amount: Option<real>, status: Option<TransactionStatus>): (r: Reply<()>)
    ensures !AmountGiven(amount) && status.None? ==> r == Err(MissingFields, db)
    ensures (AmountGiven(amount) || status.Some?) && TransactionById(db, id).None? ==> r == Err(TransactionNotFound, db)
    ensures r.Ok? <==> (AmountGiven(amount) || status.Some?) && TransactionById(db, id).Some?
    ensures r.Err? ==> r.db == db
    ensures r.Ok? ==>
      && |r.db.transactions| == |db.transactions|
      && (forall i | 0 <= i < |db.transactions| ::
            var t := db.transactions[i];
            var t' := r.db.transactions[i];
            && t'.id == t.id && t'.userId == t.userId && t'.month == t.month && t'.year == t.year
            && (t.id != id ==> t' == t)
            && (t.id == id ==> t'.amount == (if amount.Some? then amount.value else t.amount))
            && (t.id == id ==> t'.status == (if status.Some? then status.value else t.status)))
      && r.db == db.(transactions := r.db.transactions)
  {
    if !AmountGiven(amount) && status.None? then Err(MissingFields, db)
    else match TransactionById(db, id)
      case None => Err(TransactionNotFound, db)
      case Some(_) =>
        Ok((), db.(transactions := ReviseAll(db.transactions, id, amount, status)))
  }

  /** Applying the same update twice leaves what applying it once left. */
  lemma UpdateIdempotent(db: Db, id: int, amount: Option<real>, status: Option<TransactionStatus>)
    requires Update(db, id, amount, status).Ok?
    ensures var db1 := Update(db, id, amount, status).db;
      Update(db1, id, amount, status).Ok? && Update(db1, id, amount, status).db == db1
  {
    var db1 := Update(db, id, amount, status).db;
    assert db1.transactions == ReviseAll(db.transactions, id, amount, status);
    ReviseAllIdempotent(db.transactions, id, amount, status);
    var i :| 0 <= i < |db.transactions| && db.transactions[i].id == id;
    assert db1.transactions[i].id == id;
  }

  /** Revising revised rows changes nothing. */
  lemma ReviseAllIdempotent(ts: seq<Transaction>, id: int, amount: Option<real>, status: Option<TransactionStatus>)
    ensures var ts1 := ReviseAll(ts, id, amount, status);
      ReviseAll(ts1, id, amount, status) == ts1
  {
    var ts1 := ReviseAll(ts, id, amount, status);
    var ts2 := ReviseAll(ts1, id, amount, status);
    assert forall i | 0 <= i < |ts| :: ts2[i] == ts1[i];
  }
}
