/** The nightly reservation sweep (`validateReservation` in
    src/modules/cron/cron.service.ts): every reservation whose ticket has a
    holder whose `validTo` has passed is deleted, in every section. */
module Cron {
  import opened Types
  import opened Calendar
  import opened Schema
  import opened Tickets

  /** Some holder of the ticket has a `validTo` before `now`. */
  predicate Expired(userTickets: seq<UserTicket>, ticketId: int, now: Time)
  {
    exists i | 0 <= i < |userTickets| :: userTickets[i].ticketId == ticketId && userTickets[i].ExpiredBefore(now)
  }

  /** The holders of `ticketId` expired before `now`: the rows one
      reservation contributes to the join. */
  function ExpiredHolders(userTickets: seq<UserTicket>, ticketId: int, now: Time): (n: nat)
    ensures n > 0 <==> Expired(userTickets, ticketId, now)
  {
    Count(userTickets, (u: UserTicket) => u.ticketId == ticketId && u.ExpiredBefore(now))
  }

  /** The ticket ids the select returns: reservations LEFT JOIN user_tickets
      WHERE validTo < now, one per joined row. */
  function ExpiredRows(reservations: seq<Reservation>, userTickets: seq<UserTicket>, now: Time): seq<int>
  {
    if |reservations| == 0 then []
    else
      seq(ExpiredHolders(userTickets, reservations[0].ticketId, now), _ => reservations[0].ticketId)
        + ExpiredRows(reservations[1..], userTickets, now)
  }

  /** An id is selected iff some reservation carries it and its ticket is
      expired. */
  lemma {:induction false} ExpiredRowsMeaning(reservations: seq<Reservation>, userTickets: seq<UserTicket>, now: Time, id: int)
    ensures id in ExpiredRows(reservations, userTickets, now) <==>
      Expired(userTickets, id, now) && exists i | 0 <= i < |reservations| :: reservations[i].ticketId == id
  {
    if |reservations| > 0 {
      var head := seq(ExpiredHolders(userTickets, reservations[0].ticketId, now), _ => reservations[0].ticketId);
      ExpiredRowsMeaning(reservations[1..], userTickets, now, id);
      assert id in head <==> id == reservations[0].ticketId && Expired(userTickets, id, now) by {
        if id in head {
          var k :| 0 <= k < |head| && head[k] == id;
        }
        if id == reservations[0].ticketId && Expired(userTickets, id, now) {
          assert head[0] == id;
        }
      }
      assert forall i | 1 <= i < |reservations| :: reservations[i] == reservations[1..][i - 1];
      if exists i | 0 <= i < |reservations| :: reservations[i].ticketId == id {
        var i :| 0 <= i < |reservations| && reservations[i].ticketId == id;
        if i > 0 {
          assert reservations[1..][i - 1].ticketId == id;
        }
      }
    }
  }

  /** The sweep at `now`: nothing when no row is selected, otherwise the
      deletion of every reservation whose ticket id was selected. */
  function Sweep(db: Db, now: Time): (r: Db)
    ensures r == db.(reservations := r.reservations)
    ensures forall x | x in r.reservations :: x in db.reservations
  {
    var ids := ExpiredRows(db.reservations, db.userTickets, now);
    if |ids| == 0 then db
    else db.(reservations := Filter(db.reservations, (x: Reservation) => x.ticketId !in ids))
  }

  /** Exactly the reservations of expired tickets go: every reservation of
      a ticket with an expired holder, in any section, and no other. */
  lemma SweepRemovesExactlyExpired(db: Db, now: Time, x: Reservation)
    ensures x in Sweep(db, now).reservations <==> x in db.reservations && !Expired(db.userTickets, x.ticketId, now)
  {
    var ids := ExpiredRows(db.reservations, db.userTickets, now);
    ExpiredRowsMeaning(db.reservations, db.userTickets, now, x.ticketId);
    if x in db.reservations {
      var i :| 0 <= i < |db.reservations| && db.reservations[i] == x;
      if |ids| == 0 {
        assert x.ticketId !in ids;
      }
    }
  }

  /** When no reservation is expired the store is unchanged. */
  lemma SweepNothingExpired(db: Db, now: Time)
    requires forall i | 0 <= i < |db.reservations| :: !Expired(db.userTickets, db.reservations[i].ticketId, now)
    ensures Sweep(db, now) == db
  {
    var ids := ExpiredRows(db.reservations, db.userTickets, now);
    if |ids| > 0 {
      ExpiredRowsMeaning(db.reservations, db.userTickets, now, ids[0]);
    }
  }

  /** A second sweep at the same instant deletes nothing. */
  lemma SweepIdempotent(db: Db, now: Time)
    ensures Sweep(Sweep(db, now), now) == Sweep(db, now)
  {
    var db' := Sweep(db, now);
    forall i | 0 <= i < |db'.reservations|
      ensures !Expired(db'.userTickets, db'.reservations[i].ticketId, now)
    {
      SweepRemovesExactlyExpired(db, now, db'.reservations[i]);
    }
    SweepNothingExpired(db', now);
  }

  /** The sweep keeps the keys and the slot ranges. */
  lemma SweepKeepsConsistent(db: Db, now: Time)
    requires Consistent(db)
    ensures Consistent(Sweep(db, now))
  {
    var ids := ExpiredRows(db.reservations, db.userTickets, now);
    if |ids| > 0 {
      FilterKeepsDistinct(db.reservations, (x: Reservation) => x.ticketId !in ids, SlotKey);
      var db' := Sweep(db, now);
      forall i | 0 <= i < |db'.reservations|
        ensures SectionById(db, db'.reservations[i].sectionId).Some?
        ensures SlotInRange(SectionById(db, db'.reservations[i].sectionId).value, db'.reservations[i].slot)
      {
        assert db'.reservations[i] in db.reservations;
      }
    }
  }
}
