/**
 * The two tables of the booking app, Availability and Booking, as sequences
 * of rows in id order, with the lookups, inserts, flag flips and deletions
 * the routes perform on them.
 */
module Tables {
  import opened Common

  /** The (date, time) pair that correlates a booking with its slot. */
  type Key = (string, string)

  /** A bookable slot: `time` is an "HH:MM - HH:MM" label; new rows are unbooked. */
  datatype Availability = Availability(id: int, date: string, time: string, isBooked: bool)

  /** A paid reservation, linked to its slot only by equal date and time. */
  datatype Booking = Booking(id: int, name: string, date: string, time: string)

  function SlotKey(a: Availability): Key {
    (a.date, a.time)
  }

  function BookingKey(b: Booking): Key {
    (b.date, b.time)
  }

  // ---------------------------------------------------------------- lookups

  /** The index of the first element of s that satisfies p, if any. */
  function FirstWhere<T>(s: seq<T>, p: T -> bool): (r: Option<nat>)
    ensures r.Some? ==> r.value < |s| && p(s[r.value])
    ensures r.Some? ==> forall k :: 0 <= k < r.value ==> !p(s[k])
    ensures r.None? ==> forall k :: 0 <= k < |s| ==> !p(s[k])
    decreases |s|
  {
    if |s| == 0 then None
    else if p(s[0]) then Some(0)
    else match FirstWhere(s[1..], p)
      case None => None
      case Some(i) => Some(i + 1)
  }

  /** Availability.query.get(id): the row with primary key id. */
  function SlotById(rows: seq<Availability>, id: int): (r: Option<nat>)
    ensures r.Some? ==> r.value < |rows| && rows[r.value].id == id
    ensures r.None? ==> forall k :: 0 <= k < |rows| ==> rows[k].id != id
  {
    FirstWhere(rows, (a: Availability) => a.id == id)
  }

  /** Booking.query.get(id): the booking with primary key id. */
  function BookingById(rows: seq<Booking>, id: int): (r: Option<nat>)
    ensures r.Some? ==> r.value < |rows| && rows[r.value].id == id
    ensures r.None? ==> forall k :: 0 <= k < |rows| ==> rows[k].id != id
  {
    FirstWhere(rows, (b: Booking) => b.id == id)
  }

  /** Some row of the table has this date and time. */
  predicate HasSlot(rows: seq<Availability>, key: Key) {
    exists k :: 0 <= k < |rows| && SlotKey(rows[k]) == key
  }

  /** Availability.query.filter_by(date=..., time=...).first(), in table order. */
  function FirstSlotWithKey(rows: seq<Availability>, key: Key): (r: Option<nat>)
    ensures r.Some? <==> HasSlot(rows, key)
    ensures r.Some? ==> r.value < |rows| && SlotKey(rows[r.value]) == key
    ensures r.Some? ==> forall k :: 0 <= k < r.value ==> SlotKey(rows[k]) != key
  {
    FirstWhere(rows, (a: Availability) => SlotKey(a) == key)
  }

  // ------------------------------------------------------------------- ids

  predicate Increasing(ids: seq<int>) {
    forall i, j :: 0 <= i < j < |ids| ==> ids[i] < ids[j]
  }

  function SlotIds(rows: seq<Availability>): seq<int> {
    seq(|rows|, i requires 0 <= i < |rows| => rows[i].id)
  }

  function BookingIds(rows: seq<Booking>): seq<int> {
    seq(|rows|, i requires 0 <= i < |rows| => rows[i].id)
  }

  function MaxOf(ids: seq<int>): (m: int)
    requires |ids| > 0
    ensures m in ids
    ensures forall i :: 0 <= i < |ids| ==> ids[i] <= m
  {
    if |ids| == 1 then ids[0]
    else
      var m := MaxOf(ids[1..]);
      if ids[0] < m then m else ids[0]
  }

  /** The id SQLite gives a new row: one more than the largest in use, 1 in an empty table. */
  function NextId(ids: seq<int>): (n: int)
    ensures forall i :: 0 <= i < |ids| ==> ids[i] < n
    ensures Increasing(ids) ==> Increasing(ids + [n])
  {
    if |ids| == 0 then 1 else MaxOf(ids) + 1
  }

  // ------------------------------------------------------ inserting slots

  /** The row add_availability adds for a new label. */
  function NewSlot(rows: seq<Availability>, date: string, time: string): Availability {
    Availability(NextId(SlotIds(rows)), date, time, false)
  }

  /** One candidate of add_availability: added unless a row with that date and time exists. */
  function InsertOne(rows: seq<Availability>, date: string, time: string): seq<Availability> {
    if HasSlot(rows, (date, time)) then rows else rows + [NewSlot(rows, date, time)]
  }

  /** All candidates of one call, in order, each checked against the table as it grows. */
  function InsertSlots(rows: seq<Availability>, date: string, times: seq<string>): seq<Availability>
    decreases |times|
  {
    if |times| == 0 then rows
    else InsertSlots(InsertOne(rows, date, times[0]), date, times[1..])
  }

  lemma InsertSlotsCons(rows: seq<Availability>, date: string, time: string, times: seq<string>)
    ensures InsertSlots(rows, date, [time] + times) == InsertSlots(InsertOne(rows, date, time), date, times)
  {
    assert ([time] + times)[0] == time && ([time] + times)[1..] == times;
  }

  /** r keeps the rows of `rows` and only appends unbooked rows of `date` whose time is in `times`. */
  predicate AppendsUnbooked(rows: seq<Availability>, r: seq<Availability>, date: string, times: seq<string>) {
    && |rows| <= |r|
    && r[..|rows|] == rows
    && forall k :: |rows| <= k < |r| ==> r[k].date == date && r[k].time in times && !r[k].isBooked
  }

  lemma {:induction false} InsertSlotsAppends(rows: seq<Availability>, date: string, times: seq<string>)
    ensures AppendsUnbooked(rows, InsertSlots(rows, date, times), date, times)
    decreases |times|
  {
    if |times| > 0 {
      var next := InsertOne(rows, date, times[0]);
      InsertSlotsAppends(next, date, times[1..]);
      var r := InsertSlots(rows, date, times);
      assert r == InsertSlots(next, date, times[1..]);
      assert r[..|next|] == next;
      assert r[..|rows|] == next[..|rows|] == rows;
      forall k | |rows| <= k < |r|
        ensures r[k].date == date && r[k].time in times && !r[k].isBooked
      {
        if k < |next| {
          assert r[k] == next[k] == NewSlot(rows, date, times[0]);
        } else {
          assert r[k].time in times[1..];
        }
      }
    }
  }

  lemma InsertOneHasSlot(rows: seq<Availability>, date: string, time: string, key: Key)
    ensures HasSlot(InsertOne(rows, date, time), key) <==> HasSlot(rows, key) || key == (date, time)
  {
    var r := InsertOne(rows, date, time);
    if HasSlot(rows, key) {
      var k :| 0 <= k < |rows| && SlotKey(rows[k]) == key;
      assert SlotKey(r[k]) == key;
    }
    if !HasSlot(rows, (date, time)) {
      assert SlotKey(r[|rows|]) == (date, time);
    }
  }

  /** After the call, a (date, time) exists exactly when it existed before or was a candidate. */
  lemma {:induction false} InsertSlotsHasSlot(rows: seq<Availability>, date: string, times: seq<string>, key: Key)
    ensures HasSlot(InsertSlots(rows, date, times), key) <==> HasSlot(rows, key) || (key.0 == date && key.1 in times)
    decreases |times|
  {
    if |times| > 0 {
      InsertOneHasSlot(rows, date, times[0], key);
      InsertSlotsHasSlot(InsertOne(rows, date, times[0]), date, times[1..], key);
      assert key.1 in times <==> key.1 == times[0] || key.1 in times[1..];
    }
  }

  /** No two rows share a date and time. */
  predicate UniqueKeys(rows: seq<Availability>) {
    forall i, j :: 0 <= i < j < |rows| ==> SlotKey(rows[i]) != SlotKey(rows[j])
  }

  lemma {:induction false} InsertSlotsUnique(rows: seq<Availability>, date: string, times: seq<string>)
    requires UniqueKeys(rows)
    ensures UniqueKeys(InsertSlots(rows, date, times))
    decreases |times|
  {
    if |times| > 0 {
      var next := InsertOne(rows, date, times[0]);
      if !HasSlot(rows, (date, times[0])) {
        forall i, j | 0 <= i < j < |next|
          ensures SlotKey(next[i]) != SlotKey(next[j])
        {
          if j == |rows| {
            assert SlotKey(next[i]) == SlotKey(rows[i]);
          }
        }
      }
      InsertSlotsUnique(next, date, times[1..]);
    }
  }

  lemma SlotIdsAppend(rows: seq<Availability>, a: Availability)
    ensures SlotIds(rows + [a]) == SlotIds(rows) + [a.id]
  {
  }

  lemma {:induction false} InsertSlotsIds(rows: seq<Availability>, date: string, times: seq<string>)
    requires Increasing(SlotIds(rows))
    ensures Increasing(SlotIds(InsertSlots(rows, date, times)))
    decreases |times|
  {
    if |times| > 0 {
      var next := InsertOne(rows, date, times[0]);
      if !HasSlot(rows, (date, times[0])) {
        SlotIdsAppend(rows, NewSlot(rows, date, times[0]));
      }
      InsertSlotsIds(next, date, times[1..]);
    }
  }

  lemma InsertSlotsNoop(rows: seq<Availability>, date: string, times: seq<string>)
    requires forall t :: t in times ==> HasSlot(rows, (date, t))
    ensures InsertSlots(rows, date, times) == rows
    decreases |times|
  {
    if |times| > 0 {
      assert times[0] in times;
      InsertSlotsNoop(rows, date, times[1..]);
    }
  }

  /** A second call with the same candidates adds nothing. */
  lemma InsertSlotsIdempotent(rows: seq<Availability>, date: string, times: seq<string>)
    ensures InsertSlots(InsertSlots(rows, date, times), date, times) == InsertSlots(rows, date, times)
  {
    var r := InsertSlots(rows, date, times);
    forall t | t in times
      ensures HasSlot(r, (date, t))
    {
      InsertSlotsHasSlot(rows, date, times, (date, t));
    }
    InsertSlotsNoop(r, date, times);
  }

  /** The candidates that no row of `rows` has yet, in order. */
  function Missing(rows: seq<Availability>, date: string, times: seq<string>): seq<string>
    decreases |times|
  {
    if |times| == 0 then []
    else (if HasSlot(rows, (date, times[0])) then [] else [times[0]]) + Missing(rows, date, times[1..])
  }

  function Times(rows: seq<Availability>): seq<string> {
    seq(|rows|, i requires 0 <= i < |rows| => rows[i].time)
  }

  lemma {:induction false} MissingSame(rows: seq<Availability>, rows': seq<Availability>, date: string, times: seq<string>)
    requires forall t :: t in times ==> (HasSlot(rows, (date, t)) <==> HasSlot(rows', (date, t)))
    ensures Missing(rows, date, times) == Missing(rows', date, times)
    decreases |times|
  {
    if |times| > 0 {
      assert times[0] in times;
      MissingSame(rows, rows', date, times[1..]);
    }
  }

  lemma TimesConcat(a: seq<Availability>, b: seq<Availability>)
    ensures Times(a + b) == Times(a) + Times(b)
  {
  }

  lemma DistinctTail<T>(s: seq<T>)
    requires |s| > 0 && Distinct(s)
    ensures Distinct(s[1..]) && s[0] !in s[1..]
  {
    assert forall i :: 0 <= i < |s[1..]| ==> s[1..][i] == s[i + 1];
  }

  lemma InsertOneTimes(rows: seq<Availability>, date: string, t: string)
    ensures var next := InsertOne(rows, date, t);
      |rows| <= |next| && next[..|rows|] == rows
      && Times(next[|rows|..]) == if HasSlot(rows, (date, t)) then [] else [t]
  {
    var next := InsertOne(rows, date, t);
    if !HasSlot(rows, (date, t)) {
      assert next[|rows|..] == [NewSlot(rows, date, t)];
    } else {
      assert next[|rows|..] == [];
    }
  }

  lemma InsertOneKeepsOthers(rows: seq<Availability>, date: string, t: string, ts: seq<string>)
    requires t !in ts
    ensures forall x :: x in ts ==> (HasSlot(rows, (date, x)) <==> HasSlot(InsertOne(rows, date, t), (date, x)))
  {
    forall x | x in ts
      ensures HasSlot(rows, (date, x)) <==> HasSlot(InsertOne(rows, date, t), (date, x))
    {
      InsertOneHasSlot(rows, date, t, (date, x));
    }
  }

  /** With distinct candidates, the appended rows carry exactly the missing candidates, in order. */
  lemma {:induction false} InsertSlotsExact(rows: seq<Availability>, date: string, times: seq<string>)
    requires Distinct(times)
    ensures var r := InsertSlots(rows, date, times);
      |rows| <= |r| && Times(r[|rows|..]) == Missing(rows, date, times)
    decreases |times|
  {
    InsertSlotsAppends(rows, date, times);
    if |times| > 0 {
      var t := times[0];
      var next := InsertOne(rows, date, t);
      var r := InsertSlots(next, date, times[1..]);
      assert r == InsertSlots(rows, date, times);
      DistinctTail(times);
      InsertSlotsExact(next, date, times[1..]);
      InsertSlotsAppends(next, date, times[1..]);
      InsertOneKeepsOthers(rows, date, t, times[1..]);
      MissingSame(rows, next, date, times[1..]);
      InsertOneTimes(rows, date, t);
      TimesSplit(rows, next, r);
    }
  }

  /** The rows appended in two stages are those of the first stage followed by those of the second. */
  lemma TimesSplit(rows: seq<Availability>, next: seq<Availability>, r: seq<Availability>)
    requires |rows| <= |next| <= |r| && next[..|rows|] == rows && r[..|next|] == next
    ensures Times(r[|rows|..]) == Times(next[|rows|..]) + Times(r[|next|..])
  {
    assert r[|rows|..] == next[|rows|..] + r[|next|..];
    TimesConcat(next[|rows|..], r[|next|..]);
  }

  // ---------------------------------------------------- booked-key counts

  /** The (date, time) of every booked row, one copy per row. */
  function BookedKeys(rows: seq<Availability>): multiset<Key>
    decreases |rows|
  {
    if |rows| == 0 then multiset{}
    else (if rows[0].isBooked then multiset{SlotKey(rows[0])} else multiset{}) + BookedKeys(rows[1..])
  }

  /** The (date, time) of every booking, one copy per booking. */
  function BookingKeys(rows: seq<Booking>): multiset<Key>
    decreases |rows|
  {
    if |rows| == 0 then multiset{}
    else multiset{BookingKey(rows[0])} + BookingKeys(rows[1..])
  }

  lemma {:induction false} BookedKeysConcat(a: seq<Availability>, b: seq<Availability>)
    ensures BookedKeys(a + b) == BookedKeys(a) + BookedKeys(b)
    decreases |a|
  {
    if |a| > 0 {
      assert (a + b)[1..] == a[1..] + b;
      BookedKeysConcat(a[1..], b);
    } else {
      assert a + b == b;
    }
  }

  lemma {:induction false} BookingKeysConcat(a: seq<Booking>, b: seq<Booking>)
    ensures BookingKeys(a + b) == BookingKeys(a) + BookingKeys(b)
    decreases |a|
  {
    if |a| > 0 {
      assert (a + b)[1..] == a[1..] + b;
      BookingKeysConcat(a[1..], b);
    } else {
      assert a + b == b;
    }
  }

  /** A key is among the booked keys exactly when some booked row has it. */
  lemma {:induction false} BookedKeysHas(rows: seq<Availability>, key: Key)
    ensures key in BookedKeys(rows) <==> exists i :: 0 <= i < |rows| && rows[i].isBooked && SlotKey(rows[i]) == key
    decreases |rows|
  {
    if |rows| > 0 {
      BookedKeysHas(rows[1..], key);
      if exists i :: 1 <= i < |rows| && rows[i].isBooked && SlotKey(rows[i]) == key {
        var i :| 1 <= i < |rows| && rows[i].isBooked && SlotKey(rows[i]) == key;
        assert rows[1..][i - 1] == rows[i];
      }
      if exists i :: 0 <= i < |rows[1..]| && rows[1..][i].isBooked && SlotKey(rows[1..][i]) == key {
        var i :| 0 <= i < |rows[1..]| && rows[1..][i].isBooked && SlotKey(rows[1..][i]) == key;
        assert rows[i + 1] == rows[1..][i];
      }
    }
  }

  /** With unique (date, time) pairs, each key is booked at most once. */
  lemma {:induction false} BookedKeysAtMostOnce(rows: seq<Availability>, key: Key)
    requires UniqueKeys(rows)
    ensures BookedKeys(rows)[key] <= 1
    decreases |rows|
  {
    if |rows| > 0 {
      var tail := rows[1..];
      assert UniqueKeys(tail) by {
        forall i, j | 0 <= i < j < |tail|
          ensures SlotKey(tail[i]) != SlotKey(tail[j])
        {
          assert tail[i] == rows[i + 1] && tail[j] == rows[j + 1];
        }
      }
      BookedKeysAtMostOnce(tail, key);
      if SlotKey(rows[0]) == key {
        forall i | 0 <= i < |tail|
          ensures SlotKey(tail[i]) != key
        {
          assert tail[i] == rows[i + 1];
        }
        BookedKeysHas(tail, key);
      }
    }
  }

  lemma BookingKeysHas(rows: seq<Booking>, j: nat)
    requires j < |rows|
    ensures BookingKey(rows[j]) in BookingKeys(rows)
  {
    BookingKeysSplit(rows, j);
  }

  /**
   * Every booked slot has one booking with its date and time, and every
   * booking's slot is booked: the multiset of booked keys is the multiset
   * of booking keys.
   */
  predicate Consistent(avail: seq<Availability>, bookings: seq<Booking>) {
    BookedKeys(avail) == BookingKeys(bookings)
  }

  /** What Consistent means row by row when slots are unique. */
  lemma ConsistentMeaning(avail: seq<Availability>, bookings: seq<Booking>)
    requires UniqueKeys(avail) && Consistent(avail, bookings)
    ensures forall i :: 0 <= i < |avail| && avail[i].isBooked ==> BookingKeys(bookings)[SlotKey(avail[i])] == 1
    ensures forall j :: 0 <= j < |bookings| ==>
      exists i :: 0 <= i < |avail| && avail[i].isBooked && SlotKey(avail[i]) == BookingKey(bookings[j])
  {
    forall i | 0 <= i < |avail| && avail[i].isBooked
      ensures BookingKeys(bookings)[SlotKey(avail[i])] == 1
    {
      BookedKeysHas(avail, SlotKey(avail[i]));
      BookedKeysAtMostOnce(avail, SlotKey(avail[i]));
    }
    forall j | 0 <= j < |bookings|
      ensures exists i :: 0 <= i < |avail| && avail[i].isBooked && SlotKey(avail[i]) == BookingKey(bookings[j])
    {
      BookingKeysHas(bookings, j);
      BookedKeysHas(avail, BookingKey(bookings[j]));
    }
  }

  lemma InsertSlotsBookedKeys(rows: seq<Availability>, date: string, times: seq<string>)
    ensures BookedKeys(InsertSlots(rows, date, times)) == BookedKeys(rows)
  {
    var r := InsertSlots(rows, date, times);
    InsertSlotsAppends(rows, date, times);
    assert r == rows + r[|rows|..];
    BookedKeysConcat(rows, r[|rows|..]);
    NoneBooked(r[|rows|..]);
  }

  lemma {:induction false} NoneBooked(rows: seq<Availability>)
    requires forall k :: 0 <= k < |rows| ==> !rows[k].isBooked
    ensures BookedKeys(rows) == multiset{}
    decreases |rows|
  {
    if |rows| > 0 {
      NoneBooked(rows[1..]);
    }
  }

  // ------------------------------------------------- flag flips, deletions

  function SetBooked(rows: seq<Availability>, i: nat, booked: bool): seq<Availability>
    requires i < |rows|
  {
    rows[i := rows[i].(isBooked := booked)]
  }

  function RemoveAt<T>(s: seq<T>, i: nat): (r: seq<T>)
    requires i < |s|
    ensures |r| == |s| - 1
    ensures forall k :: 0 <= k < i ==> r[k] == s[k]
    ensures forall k :: i <= k < |r| ==> r[k] == s[k + 1]
  {
    s[..i] + s[i + 1..]
  }

  /** The booked keys of a table are those of the rows before i, row i, and the rows after i. */
  lemma BookedKeysSplit(rows: seq<Availability>, i: nat)
    requires i < |rows|
    ensures BookedKeys(rows) == BookedKeys(rows[..i]) + BookedKeys(rows[i + 1..])
      + (if rows[i].isBooked then multiset{SlotKey(rows[i])} else multiset{})
  {
    var rest := [rows[i]] + rows[i + 1..];
    assert rows == rows[..i] + rest;
    assert rest[1..] == rows[i + 1..];
    BookedKeysConcat(rows[..i], rest);
  }

  lemma BookingKeysSplit(rows: seq<Booking>, j: nat)
    requires j < |rows|
    ensures BookingKeys(rows) == BookingKeys(rows[..j]) + BookingKeys(rows[j + 1..]) + multiset{BookingKey(rows[j])}
  {
    var rest := rows[j..];
    assert rows == rows[..j] + rest;
    BookingKeysConcat(rows[..j], rest);
    BookingKeysHead(rest);
    assert rest[1..] == rows[j + 1..];
  }

  lemma BookingKeysHead(rows: seq<Booking>)
    requires |rows| > 0
    ensures BookingKeys(rows) == multiset{BookingKey(rows[0])} + BookingKeys(rows[1..])
  {
  }

  /** Flipping row i's flag moves its key in or out of the booked keys and touches nothing else. */
  lemma SetBookedKeys(rows: seq<Availability>, i: nat, booked: bool)
    requires i < |rows|
    ensures BookedKeys(SetBooked(rows, i, booked)) + (if rows[i].isBooked then multiset{SlotKey(rows[i])} else multiset{})
      == BookedKeys(rows) + (if booked then multiset{SlotKey(rows[i])} else multiset{})
  {
    var r := SetBooked(rows, i, booked);
    BookedKeysSplit(rows, i);
    BookedKeysSplit(r, i);
    assert r[..i] == rows[..i];
    assert r[i + 1..] == rows[i + 1..];
  }

  lemma SetBookedShape(rows: seq<Availability>, i: nat, booked: bool)
    requires i < |rows|
    ensures SlotIds(SetBooked(rows, i, booked)) == SlotIds(rows)
    ensures UniqueKeys(rows) ==> UniqueKeys(SetBooked(rows, i, booked))
  {
    var r := SetBooked(rows, i, booked);
    assert forall k :: 0 <= k < |rows| ==> SlotKey(r[k]) == SlotKey(rows[k]) && r[k].id == rows[k].id;
  }

  /** Deleting row i removes its key from the booked keys if it was booked. */
  lemma RemoveSlotKeys(rows: seq<Availability>, i: nat)
    requires i < |rows|
    ensures BookedKeys(RemoveAt(rows, i)) + (if rows[i].isBooked then multiset{SlotKey(rows[i])} else multiset{})
      == BookedKeys(rows)
  {
    BookedKeysSplit(rows, i);
    BookedKeysConcat(rows[..i], rows[i + 1..]);
  }

  lemma RemoveKeepsIncreasing(ids: seq<int>, i: nat)
    requires i < |ids| && Increasing(ids)
    ensures Increasing(RemoveAt(ids, i))
  {
    var r := RemoveAt(ids, i);
    forall a, b | 0 <= a < b < |r|
      ensures r[a] < r[b]
    {
      assert r[a] == ids[if a < i then a else a + 1];
      assert r[b] == ids[if b < i then b else b + 1];
    }
  }

  /** Deleting a slot keeps the table in id order and its (date, time) pairs unique. */
  lemma RemoveSlotShape(rows: seq<Availability>, i: nat)
    requires i < |rows|
    ensures Increasing(SlotIds(rows)) ==> Increasing(SlotIds(RemoveAt(rows, i)))
    ensures UniqueKeys(rows) ==> UniqueKeys(RemoveAt(rows, i))
  {
    var r := RemoveAt(rows, i);
    assert SlotIds(r) == RemoveAt(SlotIds(rows), i);
    if Increasing(SlotIds(rows)) {
      RemoveKeepsIncreasing(SlotIds(rows), i);
    }
    if UniqueKeys(rows) {
      forall a, b | 0 <= a < b < |r|
        ensures SlotKey(r[a]) != SlotKey(r[b])
      {
        assert r[a] == rows[if a < i then a else a + 1];
        assert r[b] == rows[if b < i then b else b + 1];
      }
    }
  }

  /** Deleting booking j removes exactly one copy of its key. */
  lemma RemoveBookingKeys(rows: seq<Booking>, j: nat)
    requires j < |rows|
    ensures BookingKeys(RemoveAt(rows, j)) + multiset{BookingKey(rows[j])} == BookingKeys(rows)
    ensures Increasing(BookingIds(rows)) ==> Increasing(BookingIds(RemoveAt(rows, j)))
  {
    BookingKeysSplit(rows, j);
    BookingKeysConcat(rows[..j], rows[j + 1..]);
    RemoveBookingIds(rows, j);
  }

  lemma RemoveBookingIds(rows: seq<Booking>, j: nat)
    requires j < |rows|
    ensures Increasing(BookingIds(rows)) ==> Increasing(BookingIds(RemoveAt(rows, j)))
  {
    assert BookingIds(RemoveAt(rows, j)) == RemoveAt(BookingIds(rows), j);
    if Increasing(BookingIds(rows)) {
      RemoveKeepsIncreasing(BookingIds(rows), j);
    }
  }

  /**
   * delete's revert: the first row with the booking's date and time, if
   * any, becomes unbooked; every other row stays as it was.
   */
  function Unbook(rows: seq<Availability>, key: Key): (r: seq<Availability>)
    ensures |r| == |rows|
    ensures forall k :: 0 <= k < |rows| ==> r[k] == rows[k].(isBooked := r[k].isBooked)
    ensures forall k :: 0 <= k < |rows| ==>
      r[k].isBooked == (rows[k].isBooked && !(SlotKey(rows[k]) == key && forall m :: 0 <= m < k ==> SlotKey(rows[m]) != key))
  {
    match FirstSlotWithKey(rows, key)
    case None => rows
    case Some(i) => SetBooked(rows, i, false)
  }

  // ------------------------------------------- the routes keep Consistent

  /** payment_success: booking a free slot and recording its booking keeps the tables consistent. */
  lemma ConfirmKeepsConsistent(avail: seq<Availability>, bookings: seq<Booking>, i: nat, b: Booking)
    requires i < |avail| && !avail[i].isBooked && BookingKey(b) == SlotKey(avail[i])
    requires Consistent(avail, bookings)
    ensures Consistent(SetBooked(avail, i, true), bookings + [b])
  {
    SetBookedKeys(avail, i, true);
    BookingKeysConcat(bookings, [b]);
    assert BookingKeys([b]) == multiset{BookingKey(b)};
  }

  lemma MultisetCancel<T>(a: multiset<T>, b: multiset<T>, x: T)
    requires a + multiset{x} == b + multiset{x}
    ensures a == b
  {
    forall y
      ensures a[y] == b[y]
    {
      assert (a + multiset{x})[y] == (b + multiset{x})[y];
    }
  }

  /** With unique slots and consistent tables, the first slot with a booking's key is booked. */
  lemma CancelTarget(avail: seq<Availability>, bookings: seq<Booking>, j: nat) returns (i: nat)
    requires j < |bookings|
    requires UniqueKeys(avail) && Consistent(avail, bookings)
    ensures FirstSlotWithKey(avail, BookingKey(bookings[j])) == Some(i)
    ensures i < |avail| && avail[i].isBooked
  {
    var key := BookingKey(bookings[j]);
    BookingKeysHas(bookings, j);
    BookedKeysHas(avail, key);
    i :| 0 <= i < |avail| && avail[i].isBooked && SlotKey(avail[i]) == key;
    var f := FirstSlotWithKey(avail, key);
    assert f.Some?;
  }

  /** delete: with unique slots, the booking's slot is booked, and reverting it keeps consistency. */
  lemma CancelKeepsConsistent(avail: seq<Availability>, bookings: seq<Booking>, j: nat)
    requires j < |bookings|
    requires UniqueKeys(avail) && Consistent(avail, bookings)
    ensures var f := FirstSlotWithKey(avail, BookingKey(bookings[j]));
      f.Some? && avail[f.value].isBooked
    ensures Consistent(Unbook(avail, BookingKey(bookings[j])), RemoveAt(bookings, j))
  {
    var key := BookingKey(bookings[j]);
    var i := CancelTarget(avail, bookings, j);
    assert Unbook(avail, key) == SetBooked(avail, i, false);
    SetBookedKeys(avail, i, false);
    RemoveBookingKeys(bookings, j);
    MultisetCancel(BookedKeys(Unbook(avail, key)), BookingKeys(RemoveAt(bookings, j)), key);
  }

  /** delete_availability: removing an unbooked row keeps consistency. */
  lemma WithdrawKeepsConsistent(avail: seq<Availability>, bookings: seq<Booking>, i: nat)
    requires i < |avail| && !avail[i].isBooked
    requires Consistent(avail, bookings)
    ensures Consistent(RemoveAt(avail, i), bookings)
  {
    RemoveSlotKeys(avail, i);
  }
}
