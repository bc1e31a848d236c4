/**
 * The routes of the booking app that read or change the two tables, on an
 * object that holds the tables and the admin session flag.
 */
module BookingApp {
  import opened Common
  import opened Clock
  import opened SlotGenerator
  import opened Tables

  /** What a route answers. */
  datatype Response =
    | RedirectToLogin                                       // redirect('/admin-login')
    | RedirectToAdmin                                       // redirect('/admin')
    | RedirectToHome                                        // redirect('/')
    | InvalidCredentials                                    // 401
    | SlotUnavailable                                       // 400, "no longer available"
    | RedirectToCheckout(product: string)                   // 303 to the hosted checkout page
    | Confirmation(name: string, date: string, time: string)

  /** The product name the checkout session is created with. */
  function CheckoutProduct(slot: Availability): string {
    "Bokning " + slot.date + " " + slot.time
  }

  class App {
    var availabilities: seq<Availability>
    var bookings: seq<Booking>
    var adminLoggedIn: bool

    /** Both tables are in id order, as the database assigns ids. */
    ghost predicate Valid()
      reads this
    {
      Increasing(SlotIds(availabilities)) && Increasing(BookingIds(bookings))
    }

    /** What the routes maintain: unique (date, time) slots, and bookings matching booked slots. */
    predicate Sound()
      reads this
    {
      UniqueKeys(availabilities) && Consistent(availabilities, bookings)
    }

    /** A slot exists with this id and is not booked. */
    predicate Bookable(slotId: int)
      reads this
    {
      exists i :: 0 <= i < |availabilities| && availabilities[i].id == slotId && !availabilities[i].isBooked
    }

    /** A booking exists with this id. */
    predicate HasBooking(id: int)
      reads this
    {
      exists j :: 0 <= j < |bookings| && bookings[j].id == id
    }

    constructor ()
      ensures Valid() && Sound()
      ensures availabilities == [] && bookings == [] && !adminLoggedIn
    {
      availabilities := [];
      bookings := [];
      adminLoggedIn := false;
    }

    /** admin_login: the credential comparison's outcome decides whether the flag is set. */
    method AdminLogin(credentialsMatch: bool) returns (r: Response)
      modifies this`adminLoggedIn
      ensures adminLoggedIn == (old(adminLoggedIn) || credentialsMatch)
      ensures r == if credentialsMatch then RedirectToAdmin else InvalidCredentials
    {
      if credentialsMatch {
        adminLoggedIn := true;
        r := RedirectToAdmin;
      } else {
        r := InvalidCredentials;
      }
    }

    /** admin_logout: clears the flag whether or not it was set. */
    method AdminLogout() returns (r: Response)
      modifies this`adminLoggedIn
      ensures !adminLoggedIn && r == RedirectToHome
    {
      adminLoggedIn := false;
      r := RedirectToHome;
    }

    /** create_checkout_session: refuses a missing or booked slot; otherwise starts checkout. */
    method CreateCheckoutSession(slotId: int) returns (r: Response)
      requires Valid()
      ensures r == SlotUnavailable <==> !Bookable(slotId)
      ensures Bookable(slotId) ==> exists i :: (0 <= i < |availabilities| && availabilities[i].id == slotId
        && r == RedirectToCheckout(CheckoutProduct(availabilities[i])))
    {
      match SlotById(availabilities, slotId)
      case None =>
        r := SlotUnavailable;
      case Some(i) =>
        if availabilities[i].isBooked {
          IdsUnique(availabilities, i);
          r := SlotUnavailable;
        } else {
          r := RedirectToCheckout(CheckoutProduct(availabilities[i]));
        }
    }

    /**
     * payment_success: refuses a missing or booked slot and changes nothing;
     * otherwise books exactly that slot and appends exactly one booking.
     */
    method PaymentSuccess(slotId: int, name: string) returns (r: Response)
      requires Valid()
      modifies this`availabilities, this`bookings
      ensures Valid()
      ensures !old(Bookable(slotId)) ==>
        r == SlotUnavailable && availabilities == old(availabilities) && bookings == old(bookings)
      ensures old(Bookable(slotId)) ==> exists i :: (0 <= i < |old(availabilities)|
        && old(availabilities)[i].id == slotId && !old(availabilities)[i].isBooked
        && availabilities == SetBooked(old(availabilities), i, true)
        && bookings == old(bookings) + [Booking(NextId(BookingIds(old(bookings))), name,
                                                 old(availabilities)[i].date, old(availabilities)[i].time)]
        && r == Confirmation(name, old(availabilities)[i].date, old(availabilities)[i].time))
      ensures old(Sound()) ==> Sound()
    {
      match SlotById(availabilities, slotId)
      case None =>
        r := SlotUnavailable;
      case Some(i) =>
        if availabilities[i].isBooked {
          IdsUnique(availabilities, i);
          r := SlotUnavailable;
        } else {
          var slot := availabilities[i];
          var booking := Booking(NextId(BookingIds(bookings)), name, slot.date, slot.time);
          if Sound() {
            ConfirmKeepsConsistent(availabilities, bookings, i, booking);
          }
          SetBookedShape(availabilities, i, true);
          assert BookingIds(bookings + [booking]) == BookingIds(bookings) + [booking.id];
          availabilities := SetBooked(availabilities, i, true);
          bookings := bookings + [booking];
          r := Confirmation(name, slot.date, slot.time);
        }
    }

    /** add_availability: inserts the generated slots of one day that are not there yet. */
    method AddAvailability(date: string, start: Minute, end: Minute, brk: BreakWindow, len: int) returns (r: Response)
      requires Valid()
      requires adminLoggedIn ==> len > 0
      modifies this`availabilities
      ensures Valid()
      ensures !adminLoggedIn ==> r == RedirectToLogin && availabilities == old(availabilities)
      ensures adminLoggedIn ==>
        r == RedirectToAdmin
        && availabilities == InsertSlots(old(availabilities), date, GeneratedLabels(start, end, brk, len))
      ensures old(Sound()) ==> Sound()
    {
      if !adminLoggedIn {
        r := RedirectToLogin;
        return;
      }
      Generate(date, start, end, brk, len);
      GenerationKeepsShape(old(availabilities), bookings, date, GeneratedLabels(start, end, brk, len));
      r := RedirectToAdmin;
    }

    /** The loop of add_availability: walks the cursor and inserts each candidate that is absent. */
    method Generate(date: string, start: Minute, end: Minute, brk: BreakWindow, len: int)
      requires len > 0
      modifies this`availabilities
      ensures availabilities == InsertSlots(old(availabilities), date, GeneratedLabels(start, end, brk, len))
    {
      ghost var target := InsertSlots(availabilities, date, GeneratedLabels(start, end, brk, len));
      var current: int := start;
      while current < end
        invariant current >= 0
        invariant InsertSlots(availabilities, date, GeneratedLabels(current, end, brk, len)) == target
        decreases end - current
      {
        var slotEnd := current + len;
        if InBreak(current, brk) {
          GeneratedLabelsStep(current, end, brk, len);
          current := brk.until;
          continue;
        }
        if slotEnd <= end {
          var time := SlotLabel(current, slotEnd);
          InsertEmitted(availabilities, date, time, current, slotEnd, end, brk, len);
          AddIfAbsent(date, time);
        } else {
          GeneratedLabelsStep(current, end, brk, len);
        }
        current := slotEnd;
      }
      GeneratedLabelsStep(current, end, brk, len);
    }

    /** One candidate of add_availability: the row is added unless one with its date and time exists. */
    method AddIfAbsent(date: string, time: string)
      modifies this`availabilities
      ensures availabilities == InsertOne(old(availabilities), date, time)
    {
      if FirstSlotWithKey(availabilities, (date, time)).None? {
        availabilities := availabilities + [NewSlot(availabilities, date, time)];
      }
    }

    /** delete_availability: removes the row only when it exists and is unbooked. */
    method DeleteAvailability(id: int) returns (r: Response)
      requires Valid()
      modifies this`availabilities
      ensures Valid()
      ensures r == if adminLoggedIn then RedirectToAdmin else RedirectToLogin
      ensures adminLoggedIn && old(Bookable(id)) ==> exists i :: (0 <= i < |old(availabilities)|
        && old(availabilities)[i].id == id && availabilities == RemoveAt(old(availabilities), i))
      ensures !(adminLoggedIn && old(Bookable(id))) ==> availabilities == old(availabilities)
      ensures old(Sound()) ==> Sound()
    {
      if !adminLoggedIn {
        r := RedirectToLogin;
        return;
      }
      r := RedirectToAdmin;
      match SlotById(availabilities, id)
      case None =>
      case Some(i) =>
        if availabilities[i].isBooked {
          IdsUnique(availabilities, i);
        } else {
          if Sound() {
            WithdrawKeepsConsistent(availabilities, bookings, i);
          }
          RemoveSlotShape(availabilities, i);
          availabilities := RemoveAt(availabilities, i);
        }
    }

    /**
     * delete: removes the booking with this id, if any, and unbooks the first
     * slot with the booking's date and time, if any.
     */
    method DeleteBooking(id: int) returns (r: Response)
      requires Valid()
      modifies this`availabilities, this`bookings
      ensures Valid()
      ensures r == if adminLoggedIn then RedirectToAdmin else RedirectToLogin
      ensures adminLoggedIn && old(HasBooking(id)) ==> exists j :: (0 <= j < |old(bookings)|
        && old(bookings)[j].id == id
        && bookings == RemoveAt(old(bookings), j)
        && availabilities == Unbook(old(availabilities), BookingKey(old(bookings)[j])))
      ensures !(adminLoggedIn && old(HasBooking(id))) ==>
        availabilities == old(availabilities) && bookings == old(bookings)
      ensures old(Sound()) ==> Sound()
    {
      if !adminLoggedIn {
        r := RedirectToLogin;
        return;
      }
      r := RedirectToAdmin;
      match BookingById(bookings, id)
      case None =>
      case Some(j) =>
        var key := BookingKey(bookings[j]);
        if Sound() {
          CancelKeepsConsistent(availabilities, bookings, j);
        }
        UnbookShape(availabilities, key);
        RemoveBookingKeys(bookings, j);
        availabilities := Unbook(availabilities, key);
        bookings := RemoveAt(bookings, j);
    }
  }

  /** In id order, no two rows share an id, so the row get(id) finds is the only one. */
  lemma IdsUnique(rows: seq<Availability>, i: nat)
    requires i < |rows| && Increasing(SlotIds(rows))
    ensures forall k :: 0 <= k < |rows| && rows[k].id == rows[i].id ==> k == i
  {
    forall k | 0 <= k < |rows| && rows[k].id == rows[i].id
      ensures k == i
    {
      assert SlotIds(rows)[k] == rows[k].id && SlotIds(rows)[i] == rows[i].id;
    }
  }

  /** The emitting step of add_availability's loop inserts that slot's label first, then the rest of the walk's. */
  lemma InsertEmitted(rows: seq<Availability>, date: string, time: string, cursor: Minute, slotEnd: Minute,
                      end: Minute, brk: BreakWindow, len: int)
    requires len > 0 && !InBreak(cursor, brk) && slotEnd == cursor + len <= end && time == SlotLabel(cursor, slotEnd)
    ensures InsertSlots(InsertOne(rows, date, time), date, GeneratedLabels(slotEnd, end, brk, len))
      == InsertSlots(rows, date, GeneratedLabels(cursor, end, brk, len))
  {
    EmitStep(cursor, end, brk, len);
    InsertSlotsCons(rows, date, time, GeneratedLabels(slotEnd, end, brk, len));
  }

  /** Inserting generated slots keeps id order, unique slots and consistency. */
  lemma GenerationKeepsShape(rows: seq<Availability>, bookings: seq<Booking>, date: string, times: seq<string>)
    ensures Increasing(SlotIds(rows)) ==> Increasing(SlotIds(InsertSlots(rows, date, times)))
    ensures UniqueKeys(rows) ==> UniqueKeys(InsertSlots(rows, date, times))
    ensures Consistent(rows, bookings) ==> Consistent(InsertSlots(rows, date, times), bookings)
  {
    if Increasing(SlotIds(rows)) {
      InsertSlotsIds(rows, date, times);
    }
    if UniqueKeys(rows) {
      InsertSlotsUnique(rows, date, times);
    }
    InsertSlotsBookedKeys(rows, date, times);
  }

  /** Reverting a slot keeps the table in id order and its (date, time) pairs unique. */
  lemma UnbookShape(rows: seq<Availability>, key: Key)
    ensures SlotIds(Unbook(rows, key)) == SlotIds(rows)
    ensures UniqueKeys(rows) ==> UniqueKeys(Unbook(rows, key))
  {
    var r := Unbook(rows, key);
    assert forall k :: 0 <= k < |rows| ==> SlotKey(r[k]) == SlotKey(rows[k]) && r[k].id == rows[k].id;
  }

  /**
   * One add_availability call on a day: the existing rows stay, and the
   * appended rows are unbooked rows of that day carrying exactly the
   * generated labels that were not there yet, in order.
   */
  lemma GenerationAppendsMissing(rows: seq<Availability>, date: string, start: Minute, end: Minute, brk: BreakWindow, len: int)
    requires len > 0
    ensures var times := GeneratedLabels(start, end, brk, len);
      var r := InsertSlots(rows, date, times);
      AppendsUnbooked(rows, r, date, times) && Times(r[|rows|..]) == Missing(rows, date, times)
  {
    var times := GeneratedLabels(start, end, brk, len);
    InsertSlotsAppends(rows, date, times);
    GeneratedLabelsDistinct(start, end, brk, len);
    InsertSlotsExact(rows, date, times);
  }
}
