/** Enumerations, the caller identity and the error taxonomy shared by every
    service of the parking backend (src/database/types/index.ts,
    src/common/types.ts and the HttpExceptions the services throw). */
module Types {

  datatype Option<+T> = None | Some(value: T)

  /** Outcome of a computation that touches no table (the fee calculator). */
  datatype Result<+T> = Success(value: T) | Failure(error: Error)

  datatype Role = Admin | User | Security

  datatype VehicleType = Car | Motorbike

  datatype TicketType = Monthly | Daily | Reserved

  /** The four statuses of src/database/types/index.ts; the column enum of the
      schema lists only three, but SQLite does not enforce it. */
  datatype TicketStatus = Available | InUse | Lost | Canceled

  datatype TransactionStatus = Pending | Paid

  /** The authenticated caller: user id (`sub`), role, and the optional list
      of section ids the caller may operate on. */
  datatype Caller = Caller(sub: int, role: Role, privileges: Option<set<int>>)

  /** `user.role === "ADMIN" || user.privileges?.includes(sectionId)` */
  predicate MayOperate(c: Caller, sectionId: int)
  {
    c.role == Admin || (c.privileges.Some? && sectionId in c.privileges.value)
  }

  /** ADMIN and SECURITY see every ticket. */
  predicate IsStaff(c: Caller)
  {
    c.role == Admin || c.role == Security
  }

  datatype Error =
    | Forbidden           // caller lacks the role or the section privilege
    | TicketNotFound
    | TicketNotAvailable  // check-in of a ticket whose status is not AVAILABLE
    | TicketNotInUse      // check-out of a ticket whose status is not INUSE
    | SectionFull
    | SlotCountFailed     // the free-slot count could not read the section
    | SessionNotFound
    | VehicleNotFound     // the 404 variant
    | VehicleNotBound     // the 400 variant raised by reserve and cancel
    | PlateMismatch
    | UserTicketNotFound
    | PriceNotFound       // a missing or zero base price
    | UserNotFound
    | SectionNotFound
    | InvalidSlot
    | NotACar
    | SlotTaken
    | NotReservedTicket
    | AlreadyCanceled
    | NoReservation
    | InvalidAmount
    | MissingFields
    | TransactionNotFound
    | NameTaken
    | Internal            // an uncaught runtime error (a failed destructuring, an empty update)

  /** The HTTP status each error surfaces with. */
  function HttpStatus(e: Error): (code: int)
    ensures code in {400, 403, 404, 409, 500}
    ensures code == 409 <==> e == SlotTaken || e == NameTaken
    ensures code == 403 <==> e == Forbidden
  {
    match e
    case Forbidden => 403
    case TicketNotFound => 404
    case SessionNotFound => 404
    case VehicleNotFound => 404
    case UserTicketNotFound => 404
    case UserNotFound => 404
    case SectionNotFound => 404
    case TransactionNotFound => 404
    case SlotTaken => 409
    case NameTaken => 409
    case SlotCountFailed => 500
    case PriceNotFound => 500
    case Internal => 500
    case _ => 400
  }
}
