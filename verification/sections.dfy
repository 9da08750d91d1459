/** Section listing, access, update with wholesale privilege replacement,
    and the revenue report (src/modules/section/section.service.ts). */
module Sections {
  import opened Types
  import opened Calendar
  import opened Schema

  // ---- getAll, getById, getReservedSlots ----

  /** ADMIN sees every section, a caller with a privilege list the sections
      it names, and a caller without one is refused. */
  function GetAll(db: Db, c: Caller): (r: Result<seq<Section>>)
    ensures r.Failure? <==> c.role != Admin && c.privileges.None?
    ensures r.Failure? ==> r.error == Forbidden
    ensures r.Success? && c.role == Admin ==> r.value == db.sections
    ensures r.Success? && c.role != Admin ==>
      forall s :: s in r.value <==> s in db.sections && s.id in c.privileges.value
  {
    if c.role == Admin then Success(db.sections)
    else if c.privileges.None? then Failure(Forbidden)
    else Success(Filter(db.sections, (s: Section) => s.id in c.privileges.value))
  }

  /** The section, or nothing when no row has the id (the service then
      answers with an empty body). */
  function GetById(db: Db, c: Caller, id: int): (r: Result<Option<Section>>)
    ensures r.Failure? <==> !MayOperate(c, id)
    ensures r.Failure? ==> r.error == Forbidden
    ensures r.Success? && r.value.Some? ==> r.value.value.id == id && r.value.value in db.sections
    ensures r.Success? && r.value.None? ==> forall s | s in db.sections :: s.id != id
  {
    if !MayOperate(c, id) then Failure(Forbidden) else Success(SectionById(db, id))
  }

  /** The slot numbers of the section's reservations, in table order. */
  function SlotsOf(reservations: seq<Reservation>, sectionId: int): (r: seq<int>)
    ensures |r| == Count(reservations, (x: Reservation) => x.sectionId == sectionId)
    ensures forall k :: k in r <==> exists i | 0 <= i < |reservations| :: reservations[i].sectionId == sectionId && reservations[i].slot == k
  {
    if |reservations| == 0 then []
    else
      var rest := SlotsOf(reservations[1..], sectionId);
      assert forall i | 1 <= i < |reservations| :: reservations[i] == reservations[1..][i - 1];
      if reservations[0].sectionId == sectionId then [reservations[0].slot] + rest else rest
  }

  function GetReservedSlots(db: Db, c: Caller, id: int): (r: Result<seq<int>>)
    ensures r.Failure? <==> !MayOperate(c, id)
    ensures r.Failure? ==> r.error == Forbidden
    ensures r.Success? ==> r.value == SlotsOf(db.reservations, id)
  {
    if !MayOperate(c, id) then Failure(Forbidden) else Success(SlotsOf(db.reservations, id))
  }

  // ---- update ----

  /** A request field counts only when it is truthy: a non-empty name, a
      non-zero capacity. */
  predicate NameGiven(name: Option<string>) { name.Some? && name.value != "" }

  predicate CapacityGiven(capacity: Option<int>) { capacity.Some? && capacity.value != 0 }

  /** The section row with the truthy fields overwritten. */
  function Amend(s: Section, name: Option<string>, capacity: Option<int>): Section
  {
    Section(s.id,
      if NameGiven(name) then name.value else s.name,
      if CapacityGiven(capacity) then capacity.value else s.capacity)
  }

  /** The section table after `update(sections).set(request)` on `id`. */
  function AmendSections(sections: seq<Section>, id: int, name: Option<string>, capacity: Option<int>): (r: seq<Section>)
    ensures |r| == |sections|
    ensures forall i | 0 <= i < |r| :: r[i] == if sections[i].id == id then Amend(sections[i], name, capacity) else sections[i]
  {
    seq(|sections|, i requires 0 <= i < |sections| =>
      if sections[i].id == id then Amend(sections[i], name, capacity) else sections[i])
  }

  /** The new name would collide with another section's unique name. */
  predicate NameClash(db: Db, id: int, name: Option<string>)
  {
    && NameGiven(name)
    && SectionById(db, id).Some?
    && exists i | 0 <= i < |db.sections| :: db.sections[i].id != id && db.sections[i].name == name.value
  }

  predicate HasDuplicate(users: seq<int>)
  {
    exists i, j | 0 <= i < j < |users| :: users[i] == users[j]
  }

  /** The privilege set with the section's grants replaced by one per user. */
  function Regrant(privileges: set<Privilege>, sectionId: int, users: seq<int>): (r: set<Privilege>)
    ensures forall u: int :: Privilege(u, sectionId) in r <==> u in users
    ensures forall p: Privilege | p.sectionId != sectionId :: p in r <==> p in privileges
  {
    (set p | p in privileges && p.sectionId != sectionId) + (set u | u in users :: Privilege(u, sectionId))
  }

  /** "You have been granted access to section <name>" from the caller to
      each listed user, in list order. */
  function Grants(from: int, users: seq<int>, sectionName: string): (r: seq<Notification>)
    ensures |r| == |users|
    ensures forall i | 0 <= i < |users| :: r[i] == Notification(from, users[i], sectionName)
    ensures forall n | n in r :: n.from == from && n.sectionName == sectionName
    ensures forall u :: u in users <==> exists n | n in r :: n.to == u
  {
    seq(|users|, i requires 0 <= i < |users| => Notification(from, users[i], sectionName))
  }

  /** Updates the truthy fields of section `id` outside any transaction,
      then, for a non-empty `privilegedTo`, replaces the section's grants
      and notifies each grantee in one transaction. A failure of that
      transaction keeps the committed section update. */
  function Update(db: Db, c: Caller, id: int, name: Option<string>, capacity: Option<int>, privilegedTo: seq<int>): (r: Reply<Option<Section>>)
    ensures !NameGiven(name) && !CapacityGiven(capacity) ==> r == Err(Internal, db)
    ensures NameClash(db, id, name) ==> r == Err(NameTaken, db)
    ensures r.Ok? ==>
      && r.value == (if SectionById(db, id).Some? then Some(Amend(SectionById(db, id).value, name, capacity)) else None)
      && r.db.sections == AmendSections(db.sections, id, name, capacity)
    ensures r.Ok? && |privilegedTo| == 0 ==> r.db == db.(sections := r.db.sections)
    ensures r.Ok? && |privilegedTo| > 0 ==>
      && !HasDuplicate(privilegedTo)
      && r.db.privileges == Regrant(db.privileges, id, privilegedTo)
      && r.value.Some?
      && r.db.notifications == db.notifications + Grants(c.sub, privilegedTo, r.value.value.name)
      && r.db == db.(sections := r.db.sections, privileges := r.db.privileges, notifications := r.db.notifications)
    ensures r.Err? ==> r.db == db || r.db == db.(sections := AmendSections(db.sections, id, name, capacity))
    ensures r.Ok? <==>
      && (NameGiven(name) || CapacityGiven(capacity))
      && !NameClash(db, id, name)
      && (|privilegedTo| > 0 ==> !HasDuplicate(privilegedTo) && SectionById(db, id).Some?)
  {
    if !NameGiven(name) && !CapacityGiven(capacity) then Err(Internal, db)
    else if NameClash(db, id, name) then Err(NameTaken, db)
    else
      var db1 := db.(sections := AmendSections(db.sections, id, name, capacity));
      var section := if SectionById(db, id).Some? then Some(Amend(SectionById(db, id).value, name, capacity)) else None;
      if |privilegedTo| == 0 then Ok(section, db1)
      else if HasDuplicate(privilegedTo) then Err(NameTaken, db1)
      else if section.None? then Err(Internal, db1)
      else Ok(section, db1.(privileges := Regrant(db1.privileges, id, privilegedTo),
                            notifications := db1.notifications + Grants(c.sub, privilegedTo, section.value.name)))
  }

  /** The updated row is what a lookup finds afterwards when ids are unique. */
  lemma UpdateFindsAmended(db: Db, c: Caller, id: int, name: Option<string>, capacity: Option<int>, privilegedTo: seq<int>)
    requires SectionKeys(db)
    requires Update(db, c, id, name, capacity, privilegedTo).Ok?
    ensures var r := Update(db, c, id, name, capacity, privilegedTo);
      SectionById(r.db, id) == r.value
  {
    var r := Update(db, c, id, name, capacity, privilegedTo);
    assert r.db.sections == AmendSections(db.sections, id, name, capacity);
    AmendFinds(db, id, name, capacity);
  }

  /** Amending keeps the section found by id, amended. */
  lemma AmendFinds(db: Db, id: int, name: Option<string>, capacity: Option<int>)
    ensures var found := SectionById(db.(sections := AmendSections(db.sections, id, name, capacity)), id);
      found == if SectionById(db, id).Some? then Some(Amend(SectionById(db, id).value, name, capacity)) else None
  {
    var s2 := AmendSections(db.sections, id, name, capacity);
    if SectionById(db, id).Some? {
      var k :| 0 <= k < |db.sections| && db.sections[k] == SectionById(db, id).value && db.sections[k].id == id
        && forall j | 0 <= j < k :: db.sections[j].id != id;
      assert s2[k] == Amend(db.sections[k], name, capacity);
      assert forall j | 0 <= j < k :: s2[j] == db.sections[j];
      FirstAt(s2, (x: Section) => x.id == id, k);
    } else {
      assert forall j | 0 <= j < |s2| :: s2[j].id == db.sections[j].id;
    }
  }

  /** The update keeps section ids and names unique. */
  lemma UpdateKeepsSectionKeys(db: Db, c: Caller, id: int, name: Option<string>, capacity: Option<int>, privilegedTo: seq<int>)
    requires SectionKeys(db)
    ensures SectionKeys(Update(db, c, id, name, capacity, privilegedTo).db)
  {
    var s := db.sections;
    var s2 := AmendSections(s, id, name, capacity);
    if (NameGiven(name) || CapacityGiven(capacity)) && !NameClash(db, id, name) {
      forall i, j | 0 <= i < j < |s2|
        ensures s2[i].name != s2[j].name
      {
        if NameGiven(name) && (s[i].id == id || s[j].id == id) {
          var k := if s[i].id == id then i else j;
          var o := if s[i].id == id then j else i;
          assert s[k].id == id && s[o].id != id;
          assert SectionById(db, id).Some?;
          assert s2[k].name == name.value && s2[o] == s[o];
        }
      }
    }
  }

  // ---- report ----

  /** A history row counted by the report: in the section, checked in
      within [from, to]. */
  predicate InWindow(h: Session, sectionId: int, from: Time, to: Time)
  {
    h.sectionId == sectionId && from <= h.checkedInAt <= to
  }

  /** `sum(history.fee)` over the window; SQL's SUM skips NULL fees, and a
      sum over no fee is NULL, which `Number(revenue) || 0` turns into 0. */
  function Revenue(history: seq<Session>, sectionId: int, from: Time, to: Time): real
  {
    if |history| == 0 then 0.0
    else
      (if InWindow(history[0], sectionId, from, to) && history[0].fee.Some? then history[0].fee.value else 0.0)
        + Revenue(history[1..], sectionId, from, to)
  }

  /** The window defaults to the seven days before `now`. */
  function Report(db: Db, c: Caller, id: int, from: Option<Time>, to: Option<Time>, now: Time): (r: Result<real>)
    ensures r.Failure? <==> !MayOperate(c, id)
    ensures r.Failure? ==> r.error == Forbidden
    ensures r.Success? ==>
      var from' := if from.Some? then from.value else now - 7 * SecondsPerDay;
      var to' := if to.Some? then to.value else now;
      r.value == Revenue(db.history, id, from', to')
  {
    if !MayOperate(c, id) then Failure(Forbidden)
    else
      var from' := if from.Some? then from.value else now - 7 * SecondsPerDay;
      var to' := if to.Some? then to.value else now;
      Success(Revenue(db.history, id, from', to'))
  }

  /** With positive fees the revenue is 0 exactly when no row of the window
      carries a fee, and positive otherwise. */
  lemma {:induction false} RevenueZeroIff(history: seq<Session>, sectionId: int, from: Time, to: Time)
    requires PositiveFees(history)
    ensures Revenue(history, sectionId, from, to) >= 0.0
    ensures Revenue(history, sectionId, from, to) == 0.0 <==>
      forall i | 0 <= i < |history| :: !(InWindow(history[i], sectionId, from, to) && history[i].fee.Some?)
  {
    if |history| > 0 {
      assert forall i | 1 <= i < |history| :: history[i] == history[1..][i - 1];
      RevenueZeroIff(history[1..], sectionId, from, to);
    }
  }

  /** With positive fees, a wider window never reports less. */
  lemma {:induction false} RevenueMonotone(history: seq<Session>, sectionId: int, from: Time, to: Time, from': Time, to': Time)
    requires PositiveFees(history)
    requires from' <= from && to <= to'
    ensures Revenue(history, sectionId, from, to) <= Revenue(history, sectionId, from', to')
  {
    if |history| > 0 {
      assert forall i | 1 <= i < |history| :: history[i] == history[1..][i - 1];
      RevenueMonotone(history[1..], sectionId, from, to, from', to');
    }
  }

  /** The revenue of two stretches of history adds up. */
  lemma {:induction false} RevenueAppend(h1: seq<Session>, h2: seq<Session>, sectionId: int, from: Time, to: Time)
    ensures Revenue(h1 + h2, sectionId, from, to) == Revenue(h1, sectionId, from, to) + Revenue(h2, sectionId, from, to)
  {
    if |h1| > 0 {
      assert (h1 + h2)[1..] == h1[1..] + h2;
      RevenueAppend(h1[1..], h2, sectionId, from, to);
    } else {
      assert h1 + h2 == h2;
    }
  }
}
