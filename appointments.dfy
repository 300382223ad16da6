/**
 * The appointment table and the two handlers of AppointmentController:
 * booking (`store`) and the client's list of appointments (`index`).
 *
 * Instants are integer milliseconds since the epoch (the request's `date`
 * already parsed); the clock reading `new Date()` enters as `now`.
 */
module AppointmentController {
  import opened Wrappers
  import opened Queries
  import UserController

  /** One hour in milliseconds. */
  const HourMs := 3600000

  /** The fixed page length of `index`. */
  const PageSize := 10

  /** A row of the appointment table; `providerId` is kept as submitted. */
  datatype Appointment = Appointment(id: nat, userId: nat, providerId: int, date: int, canceledAt: Option<int>)

  /** The JSON body of a booking request: both fields may be missing. */
  datatype BookingRequest = BookingRequest(providerId: Option<int>, date: Option<int>)

  datatype BookingError = ValidationFailed | NotAProvider | PastDate | NotAvailable {

    /** The HTTP status the handler answers with. */
    function Status(): int {
      match this
      case ValidationFailed => 400
      case NotAProvider => 401
      case PastDate => 400
      case NotAvailable => 400
    }

    /** The text of the answer. */
    function Message(): string {
      match this
      case ValidationFailed => "Validation failed"
      case NotAProvider => "You can only create appointments with providers"
      case PastDate => "Invalid date! You have entered a date in the past"
      case NotAvailable => "Appointment date not available"
    }
  }

  /** `index` with a page below 1 sends a negative OFFSET, which the database refuses. */
  datatype ListError = NegativeOffset

  /**
   * `startOfHour`: the hour-aligned instant at or before `t`, less than an
   * hour before it (in UTC, or any zone whose offset is whole hours).
   */
  function StartOfHour(t: int): (s: int)
    ensures s % HourMs == 0
    ensures s <= t < s + HourMs
  {
    t - t % HourMs
  }

  /** Only one hour-aligned instant lies within the hour before `t`. */
  lemma StartOfHourUnique(t: int, s: int)
    requires s % HourMs == 0 && s <= t < s + HourMs
    ensures s == StartOfHour(t)
  {
  }

  /** A non-canceled appointment with `providerId` at exactly `date` exists. */
  predicate SlotTaken(rows: seq<Appointment>, providerId: int, date: int) {
    exists a :: a in rows && a.providerId == providerId && a.canceledAt.None? && a.date == date
  }

  /** What the checks of `store` establish about an accepted request. */
  datatype Accepted = Accepted(providerId: int, date: int, slot: int)

  /**
   * The checks of `store`, in their order: the body has both fields, the
   * target is a provider, the hour-truncated slot is not in the past, and
   * no non-canceled appointment of that provider is at the slot.
   */
  function Screen(users: seq<UserController.User>, rows: seq<Appointment>, req: BookingRequest, now: int): (r: Result<Accepted, BookingError>)
    ensures r.Ok? ==> req.providerId == Some(r.value.providerId) && req.date == Some(r.value.date)
    ensures r.Ok? ==> r.value.slot % HourMs == 0 && r.value.slot <= r.value.date < r.value.slot + HourMs
    ensures r.Ok? ==> UserController.IsProvider(users, r.value.providerId) && now <= r.value.slot
    ensures r.Ok? ==> !SlotTaken(rows, r.value.providerId, r.value.slot)
  {
    if req.providerId.None? || req.date.None? then Err(ValidationFailed)
    else
      var providerId, date := req.providerId.value, req.date.value;
      if !UserController.IsProvider(users, providerId) then Err(NotAProvider)
      else
        var slot := StartOfHour(date);
        if slot < now then Err(PastDate)
        else if SlotTaken(rows, providerId, slot) then Err(NotAvailable)
        else Ok(Accepted(providerId, date, slot))
  }

  /** `store` as written: the row created carries the raw submitted `date`. */
  function BookAsWritten(users: seq<UserController.User>, rows: seq<Appointment>, nextId: nat, requester: nat,
                         req: BookingRequest, now: int): Result<Appointment, BookingError>
  {
    match Screen(users, rows, req, now)
    case Err(e) => Err(e)
    case Ok(c) => Ok(Appointment(nextId, requester, c.providerId, c.date, None))
  }

  /** `store` as intended: the row created carries the slot that was checked. */
  function Book(users: seq<UserController.User>, rows: seq<Appointment>, nextId: nat, requester: nat,
                req: BookingRequest, now: int): Result<Appointment, BookingError>
  {
    match Screen(users, rows, req, now)
    case Err(e) => Err(e)
    case Ok(c) => Ok(Appointment(nextId, requester, c.providerId, c.slot, None))
  }

  /** No two non-canceled appointments share a provider and a date. */
  ghost predicate NoDoubleBooking(rows: seq<Appointment>) {
    forall i, j :: 0 <= i < j < |rows| && rows[i].canceledAt.None? && rows[j].canceledAt.None? ==>
      rows[i].providerId != rows[j].providerId || rows[i].date != rows[j].date
  }

  /** Every appointment date is the start of an hour. */
  ghost predicate HourAligned(rows: seq<Appointment>) {
    forall i :: 0 <= i < |rows| ==> rows[i].date % HourMs == 0
  }

  /**
   * The checks run in a fixed order, each deciding alone: a missing field
   * wins over everything, a non-provider target over a past or taken slot,
   * a past slot over a taken one.
   */
  lemma BookingCheckOrder(users: seq<UserController.User>, rows: seq<Appointment>, nextId: nat, requester: nat,
                          req: BookingRequest, now: int)
    ensures req.providerId.None? || req.date.None? ==>
      Book(users, rows, nextId, requester, req, now) == Err(ValidationFailed)
    ensures req.providerId.Some? && req.date.Some? && !UserController.IsProvider(users, req.providerId.value) ==>
      Book(users, rows, nextId, requester, req, now) == Err(NotAProvider)
    ensures req.providerId.Some? && req.date.Some? && UserController.IsProvider(users, req.providerId.value) &&
            StartOfHour(req.date.value) < now ==>
      Book(users, rows, nextId, requester, req, now) == Err(PastDate)
    ensures req.providerId.Some? && req.date.Some? && UserController.IsProvider(users, req.providerId.value) &&
            now <= StartOfHour(req.date.value) &&
            SlotTaken(rows, req.providerId.value, StartOfHour(req.date.value)) ==>
      Book(users, rows, nextId, requester, req, now) == Err(NotAvailable)
  {
  }

  /**
   * A booking succeeds exactly when every check passes, a slot starting at
   * `now` included; the new row belongs to the requester, is not canceled
   * and is dated at the checked slot.
   */
  lemma BookingSuccess(users: seq<UserController.User>, rows: seq<Appointment>, nextId: nat, requester: nat,
                       req: BookingRequest, now: int)
    ensures Book(users, rows, nextId, requester, req, now).Ok? <==>
      && req.providerId.Some? && req.date.Some?
      && UserController.IsProvider(users, req.providerId.value)
      && now <= StartOfHour(req.date.value)
      && !SlotTaken(rows, req.providerId.value, StartOfHour(req.date.value))
    ensures Book(users, rows, nextId, requester, req, now).Ok? ==>
      Book(users, rows, nextId, requester, req, now).value ==
        Appointment(nextId, requester, req.providerId.value, StartOfHour(req.date.value), None)
  {
  }

  /**
   * The code as written decides exactly as the corrected one and differs
   * only in the date of the row it creates.
   */
  lemma AsWrittenDiffersOnlyInDate(users: seq<UserController.User>, rows: seq<Appointment>, nextId: nat, requester: nat,
                                   req: BookingRequest, now: int)
    ensures BookAsWritten(users, rows, nextId, requester, req, now).Err? ==
            Book(users, rows, nextId, requester, req, now).Err?
    ensures BookAsWritten(users, rows, nextId, requester, req, now).Err? ==>
      BookAsWritten(users, rows, nextId, requester, req, now) == Book(users, rows, nextId, requester, req, now)
    ensures BookAsWritten(users, rows, nextId, requester, req, now).Ok? ==>
      && BookAsWritten(users, rows, nextId, requester, req, now).value ==
           Book(users, rows, nextId, requester, req, now).value.(date := req.date.value)
      && Book(users, rows, nextId, requester, req, now).value.date == StartOfHour(req.date.value)
  {
  }

  /** The corrected booking keeps at most one non-canceled appointment per provider and date. */
  lemma BookKeepsNoDoubleBooking(users: seq<UserController.User>, rows: seq<Appointment>, nextId: nat, requester: nat,
                                 req: BookingRequest, now: int)
    requires NoDoubleBooking(rows)
    requires Book(users, rows, nextId, requester, req, now).Ok?
    ensures NoDoubleBooking(rows + [Book(users, rows, nextId, requester, req, now).value])
  {
  }

  /** The corrected booking only ever stores hour-aligned dates. */
  lemma BookKeepsHourAligned(users: seq<UserController.User>, rows: seq<Appointment>, nextId: nat, requester: nat,
                             req: BookingRequest, now: int)
    requires HourAligned(rows)
    requires Book(users, rows, nextId, requester, req, now).Ok?
    ensures HourAligned(rows + [Book(users, rows, nextId, requester, req, now).value])
  {
  }

  /**
   * As written, the same request sent twice books the same provider twice
   * at the same instant: the first row is dated 14:23, the availability
   * lookup of the second asks for 14:00 and finds nothing.
   */
  lemma AsWrittenDoubleBooks()
    ensures
      var users := [UserController.User(1, "barber", "barber@example.com", "digest", true)];
      var req := BookingRequest(Some(1), Some(14 * HourMs + 23 * 60000));
      var first := BookAsWritten(users, [], 1, 7, req, 0);
      && first.Ok?
      && var second := BookAsWritten(users, [first.value], 2, 8, req, 0);
      && second.Ok?
      && !NoDoubleBooking([first.value, second.value])
  {
    var users := [UserController.User(1, "barber", "barber@example.com", "digest", true)];
    var date := 14 * HourMs + 23 * 60000;
    var req := BookingRequest(Some(1), Some(date));
    assert users[0] in users;
    assert StartOfHour(date) == 14 * HourMs by {
      StartOfHourUnique(date, 14 * HourMs);
    }
    var first := BookAsWritten(users, [], 1, 7, req, 0);
    assert first == Ok(Appointment(1, 7, 1, date, None));
    assert !SlotTaken([first.value], 1, 14 * HourMs);
    var second := BookAsWritten(users, [first.value], 2, 8, req, 0);
    assert second == Ok(Appointment(2, 8, 1, date, None));
    assert [first.value, second.value][0].date == [first.value, second.value][1].date;
  }

  /** The requester's non-canceled appointments, in table order. */
  function ActiveOf(rows: seq<Appointment>, requester: nat): seq<Appointment> {
    Filter(rows, (a: Appointment) => a.userId == requester && a.canceledAt.None?)
  }

  /** Appointments ordered by date, earliest first. */
  function ByDate(s: seq<Appointment>): seq<Appointment> {
    SortBy(s, (a: Appointment) => a.date)
  }

  /**
   * `index`: page `page` (1 when missing) of the requester's non-canceled
   * appointments ordered by date, ten to a page.
   */
  function List(rows: seq<Appointment>, requester: nat, page: Option<int>): (r: Result<seq<Appointment>, ListError>)
    ensures r.Ok? <==> page.GetOr(1) >= 1
    ensures r.Ok? ==> |r.value| <= PageSize
    ensures r.Ok? ==>
      var n, offset := |ActiveOf(rows, requester)|, (page.GetOr(1) - 1) * PageSize;
      |r.value| == if offset >= n then 0 else Min(PageSize, n - offset)
    ensures r.Ok? ==> forall i :: 0 <= i < |r.value| ==>
      r.value[i] in rows && r.value[i].userId == requester && r.value[i].canceledAt.None?
    ensures r.Ok? ==> multiset(r.value) <= multiset(ActiveOf(rows, requester))
    ensures r.Ok? ==> forall i, j :: 0 <= i < j < |r.value| ==> r.value[i].date <= r.value[j].date
  {
    var p := page.GetOr(1);
    if p < 1 then Err(NegativeOffset)
    else
      var active := ActiveOf(rows, requester);
      var w := Window(ByDate(active), (p - 1) * PageSize, PageSize);
      SortedFilterWindow(rows, (a: Appointment) => a.userId == requester && a.canceledAt.None?,
                         (a: Appointment) => a.date, (p - 1) * PageSize, PageSize);
      Ok(w)
  }

  /**
   * Paging reaches every listed appointment: the k-th of the requester's
   * non-canceled appointments by date is entry k % 10 of page k / 10 + 1.
   */
  lemma EveryActiveAppointmentIsListed(rows: seq<Appointment>, requester: nat, k: nat)
    requires k < |ActiveOf(rows, requester)|
    ensures
      var r := List(rows, requester, Some(k / PageSize + 1));
      && r.Ok? && k % PageSize < |r.value|
      && r.value[k % PageSize] == ByDate(ActiveOf(rows, requester))[k]
  {
  }

  /** A missing page is page 1. */
  lemma ListDefaultsToFirstPage(rows: seq<Appointment>, requester: nat)
    ensures List(rows, requester, None) == List(rows, requester, Some(1))
    ensures List(rows, requester, None).Ok?
    ensures List(rows, requester, None).value == Window(ByDate(ActiveOf(rows, requester)), 0, PageSize)
  {
  }

  /** The appointment table, as the handlers see it. */
  class AppointmentTable {
    var rows: seq<Appointment>
    var nextId: nat

    /** Ids are unique: every id is below the next one handed out. */
    ghost predicate Valid()
      reads this
    {
      && (forall i, j :: 0 <= i < j < |rows| ==> rows[i].id != rows[j].id)
      && (forall i :: 0 <= i < |rows| ==> rows[i].id < nextId)
    }

    constructor ()
      ensures Valid() && rows == [] && nextId == 1
    {
      rows, nextId := [], 1;
    }

    /** `AppointmentController.store` exactly as written, for the authenticated user `requester`. */
    method StoreAsWritten(users: seq<UserController.User>, requester: nat, req: BookingRequest, now: int)
      returns (result: Result<Appointment, BookingError>)
      requires Valid()
      modifies this
      ensures Valid()
      ensures result == BookAsWritten(users, old(rows), old(nextId), requester, req, now)
      ensures rows == if result.Ok? then old(rows) + [result.value] else old(rows)
      ensures nextId == if result.Ok? then old(nextId) + 1 else old(nextId)
    {
      if req.providerId.None? || req.date.None? {
        return Err(ValidationFailed);
      }
      var providerId, date := req.providerId.value, req.date.value;
      if !UserController.IsProvider(users, providerId) {
        return Err(NotAProvider);
      }
      var slot := StartOfHour(date);
      if slot < now {
        return Err(PastDate);
      }
      if SlotTaken(rows, providerId, slot) {
        return Err(NotAvailable);
      }
      var appointment := Appointment(nextId, requester, providerId, date, None);
      rows := rows + [appointment];
      nextId := nextId + 1;
      result := Ok(appointment);
    }

    /**
     * `AppointmentController.store` with the checked slot stored as the date;
     * it keeps one non-canceled appointment per provider and hour.
     */
    method Store(users: seq<UserController.User>, requester: nat, req: BookingRequest, now: int)
      returns (result: Result<Appointment, BookingError>)
      requires Valid()
      modifies this
      ensures Valid()
      ensures result == Book(users, old(rows), old(nextId), requester, req, now)
      ensures rows == if result.Ok? then old(rows) + [result.value] else old(rows)
      ensures nextId == if result.Ok? then old(nextId) + 1 else old(nextId)
      ensures NoDoubleBooking(old(rows)) ==> NoDoubleBooking(rows)
      ensures HourAligned(old(rows)) ==> HourAligned(rows)
    {
      if req.providerId.None? || req.date.None? {
        return Err(ValidationFailed);
      }
      var providerId, date := req.providerId.value, req.date.value;
      if !UserController.IsProvider(users, providerId) {
        return Err(NotAProvider);
      }
      var slot := StartOfHour(date);
      if slot < now {
        return Err(PastDate);
      }
      if SlotTaken(rows, providerId, slot) {
        return Err(NotAvailable);
      }
      if NoDoubleBooking(rows) {
        BookKeepsNoDoubleBooking(users, rows, nextId, requester, req, now);
      }
      if HourAligned(rows) {
        BookKeepsHourAligned(users, rows, nextId, requester, req, now);
      }
      var appointment := Appointment(nextId, requester, providerId, slot, None);
      rows := rows + [appointment];
      nextId := nextId + 1;
      result := Ok(appointment);
    }
  }
}
