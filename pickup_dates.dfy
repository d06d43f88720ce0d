/**
 * The pickup calendar kept in `available-dates.json`: the dates a customer may
 * choose, each with a slot total and the slots still free. Orders take one
 * slot; the admin routes add, resize and delete dates. A failed file write
 * leaves the stored list as it was, since every request reads the file afresh.
 */
module PickupDates {
  import opened Wrappers
  import opened Basics

  /** An entry of the `pickup` list; `date` is the calendar date as the client sent it. */
  datatype AvailableDate = AvailableDate(
    id: string,
    date: string,
    totalSlots: int,
    remainingSlots: int,
    notes: string)

  /** What an admin date route answers. */
  datatype DateOutcome =
    | MissingFields       // 400: type, date or totalSlots missing
    | InvalidType         // 400: only "pickup" is supported
    | SlotsOutOfRange     // 400: totalSlots outside 1..50
    | InvalidDate         // 400: the date does not parse or lies in the past
    | DuplicateDate       // 400: the date is already listed
    | DateNotFound        // 404
    | SaveFailed          // 500: the file could not be written
    | Added(entry: AvailableDate)
    | Updated
    | Deleted

  const MinSlots := 1
  const MaxSlots := 50

  predicate SlotsInRange(n: int) { MinSlots <= n <= MaxSlots }

  /** A well-formed entry: a total in range and a free count between 0 and the total. */
  predicate WellFormed(d: AvailableDate)
  {
    SlotsInRange(d.totalSlots) && 0 <= d.remainingSlots <= d.totalSlots
  }

  /** The calendar invariant: every entry well formed, and no date listed twice. */
  predicate CalendarOk(ds: seq<AvailableDate>)
  {
    && (forall i :: 0 <= i < |ds| ==> WellFormed(ds[i]))
    && (forall i, j :: 0 <= i < j < |ds| ==> ds[i].date != ds[j].date)
  }

  // ---------------------------------------------------------------------
  // Lookup
  // ---------------------------------------------------------------------

  /** `pickup.findIndex(d => d.date === date)`, None for -1. */
  function IndexOfDate(ds: seq<AvailableDate>, date: string): (r: Option<nat>)
    ensures r.Some? ==> r.value < |ds| && ds[r.value].date == date
    ensures r.Some? ==> forall j :: 0 <= j < r.value ==> ds[j].date != date
    ensures r.None? ==> forall j :: 0 <= j < |ds| ==> ds[j].date != date
  {
    FindFirst(ds, (d: AvailableDate) => d.date == date)
  }

  /** `pickup.findIndex(d => d.id === id)`, None for -1. */
  function IndexOfId(ds: seq<AvailableDate>, id: string): (r: Option<nat>)
    ensures r.Some? ==> r.value < |ds| && ds[r.value].id == id
    ensures r.Some? ==> forall j :: 0 <= j < r.value ==> ds[j].id != id
    ensures r.None? ==> forall j :: 0 <= j < |ds| ==> ds[j].id != id
  {
    FindFirst(ds, (d: AvailableDate) => d.id == id)
  }

  // ---------------------------------------------------------------------
  // Taking a slot for an order
  // ---------------------------------------------------------------------

  /** The list after an order for `date`: the first entry with that date loses one
      free slot, never going below zero. */
  function AfterOrder(ds: seq<AvailableDate>, date: string): seq<AvailableDate>
  {
    match IndexOfDate(ds, date)
    case None => ds
    case Some(i) => ds[i := ds[i].(remainingSlots := Max(0, ds[i].remainingSlots - 1))]
  }

  /** An order takes exactly one free slot from its date when one is left, none when
      the date is full or not listed, and touches no other entry or field. */
  lemma AfterOrderEffect(ds: seq<AvailableDate>, date: string)
    ensures |AfterOrder(ds, date)| == |ds|
    ensures forall i :: 0 <= i < |ds| && ds[i].date != date ==> AfterOrder(ds, date)[i] == ds[i]
    ensures forall i :: 0 <= i < |ds| ==>
      AfterOrder(ds, date)[i] == ds[i].(remainingSlots := AfterOrder(ds, date)[i].remainingSlots)
    ensures (forall i :: 0 <= i < |ds| ==> ds[i].date != date) ==> AfterOrder(ds, date) == ds
    ensures CalendarOk(ds) ==> forall i :: 0 <= i < |ds| && ds[i].date == date ==>
      AfterOrder(ds, date)[i].remainingSlots == (if ds[i].remainingSlots > 0 then ds[i].remainingSlots - 1 else 0)
  {
  }

  /** Taking a slot keeps the calendar well formed. */
  lemma AfterOrderKeepsCalendar(ds: seq<AvailableDate>, date: string)
    requires CalendarOk(ds)
    ensures CalendarOk(AfterOrder(ds, date))
  {
    AfterOrderEffect(ds, date);
  }

  /** The free slots across the whole calendar. */
  function FreeSlots(ds: seq<AvailableDate>): int
  {
    if ds == [] then 0 else FreeSlots(ds[..|ds| - 1]) + ds[|ds| - 1].remainingSlots
  }

  /** Replacing one entry changes the calendar's free slots by the difference. */
  lemma {:induction false} FreeSlotsUpdate(ds: seq<AvailableDate>, i: nat, d: AvailableDate)
    requires i < |ds|
    ensures FreeSlots(ds[i := d]) == FreeSlots(ds) - ds[i].remainingSlots + d.remainingSlots
  {
    var init := ds[..|ds| - 1];
    if i < |init| {
      FreeSlotsUpdate(init, i, d);
      assert ds[i := d][..|ds| - 1] == init[i := d];
    } else {
      assert ds[i := d][..|ds| - 1] == init;
    }
  }

  /** Across the calendar, an order takes exactly one free slot when its date is
      listed and not full, and none otherwise. */
  lemma AfterOrderTakesOne(ds: seq<AvailableDate>, date: string)
    requires CalendarOk(ds)
    ensures FreeSlots(AfterOrder(ds, date)) ==
      FreeSlots(ds) - (if exists i :: 0 <= i < |ds| && ds[i].date == date && ds[i].remainingSlots > 0 then 1 else 0)
  {
    match IndexOfDate(ds, date)
    case None =>
    case Some(i) =>
      var d := ds[i];
      var e := d.(remainingSlots := Max(0, d.remainingSlots - 1));
      FreeSlotsUpdate(ds, i, e);
      assert AfterOrder(ds, date) == ds[i := e];
      assert WellFormed(d);
      assert (exists j :: 0 <= j < |ds| && ds[j].date == date && ds[j].remainingSlots > 0) <==> d.remainingSlots > 0 by {
        forall j | 0 <= j < |ds| && ds[j].date == date ensures j == i {
        }
      }
  }

  // ---------------------------------------------------------------------
  // Resizing a date
  // ---------------------------------------------------------------------

  /** `Math.max(0, newTotal - (total - remaining))`: the slots already taken stay taken. */
  function RemainingAfterResize(total: int, remaining: int, newTotal: int): int
  {
    Max(0, newTotal - (total - remaining))
  }

  /** Resizing keeps the number of taken slots whenever the new total can hold them,
      and otherwise leaves no slot free; the free count stays within the new total. */
  lemma ResizeKeepsUsed(total: int, remaining: int, newTotal: int)
    requires 0 <= remaining <= total && newTotal >= 0
    ensures var r := RemainingAfterResize(total, remaining, newTotal);
      && 0 <= r <= newTotal
      && (newTotal >= total - remaining ==> newTotal - r == total - remaining)
      && (newTotal < total - remaining ==> r == 0)
  {
  }

  /** The entry after `PUT /api/admin/available-dates/:id`: a falsy total (absent
      or 0) keeps the old one, and absent notes keep the old notes. */
  function Resized(d: AvailableDate, totalSlots: Option<int>, notes: Option<string>): AvailableDate
  {
    var newTotal := if totalSlots.Some? && totalSlots.value != 0 then totalSlots.value else d.totalSlots;
    d.(totalSlots := newTotal,
       remainingSlots := RemainingAfterResize(d.totalSlots, d.remainingSlots, newTotal),
       notes := if notes.Some? then notes.value else d.notes)
  }

  /** A resize to a total in range keeps the entry well formed. */
  lemma ResizedWellFormed(d: AvailableDate, totalSlots: Option<int>, notes: Option<string>)
    requires WellFormed(d)
    requires totalSlots.Some? && totalSlots.value != 0 ==> SlotsInRange(totalSlots.value)
    ensures WellFormed(Resized(d, totalSlots, notes))
    ensures Resized(d, totalSlots, notes).date == d.date && Resized(d, totalSlots, notes).id == d.id
    ensures var e := Resized(d, totalSlots, notes);
      e.totalSlots >= d.totalSlots - d.remainingSlots ==>
        e.totalSlots - e.remainingSlots == d.totalSlots - d.remainingSlots
  {
    var e := Resized(d, totalSlots, notes);
    ResizeKeepsUsed(d.totalSlots, d.remainingSlots, e.totalSlots);
  }

  // ---------------------------------------------------------------------
  // The calendar
  // ---------------------------------------------------------------------

  class Calendar {
    /** `availableDates.pickup`, in file order. */
    var pickup: seq<AvailableDate>

    ghost predicate Valid()
      reads this
    {
      CalendarOk(pickup)
    }

    constructor (ds: seq<AvailableDate>)
      ensures pickup == ds
    {
      pickup := ds;
    }

    /** The slot decrement of an order submission. Failures are swallowed: a failed
        write (`writeOk` false) leaves the stored list as it was. */
    method TakeSlot(date: string, writeOk: bool)
      modifies this
      ensures pickup == if writeOk then AfterOrder(old(pickup), date) else old(pickup)
      ensures old(Valid()) ==> Valid()
    {
      var i := IndexOfDate(pickup, date);
      if i.Some? && writeOk {
        var current := pickup[i.value];
        pickup := pickup[i.value := current.(remainingSlots := Max(0, current.remainingSlots - 1))];
      }
      if old(Valid()) {
        AfterOrderKeepsCalendar(old(pickup), date);
      }
    }

    /** `PUT /api/admin/available-dates/:id`. The range check comes before the lookup;
        the route answers success even when the file write fails. */
    method UpdateDate(id: string, totalSlots: Option<int>, notes: Option<string>, writeOk: bool)
      returns (r: DateOutcome)
      modifies this
      ensures totalSlots.Some? && totalSlots.value != 0 && !SlotsInRange(totalSlots.value) ==>
        r == SlotsOutOfRange && pickup == old(pickup)
      ensures (totalSlots.None? || totalSlots.value == 0 || SlotsInRange(totalSlots.value)) ==>
        match IndexOfId(old(pickup), id)
        case None => r == DateNotFound && pickup == old(pickup)
        case Some(i) =>
          r == Updated &&
          pickup == if writeOk then old(pickup)[i := Resized(old(pickup)[i], totalSlots, notes)] else old(pickup)
      ensures old(Valid()) ==> Valid()
    {
      if totalSlots.Some? && totalSlots.value != 0 && (totalSlots.value < MinSlots || totalSlots.value > MaxSlots) {
        return SlotsOutOfRange;
      }
      var i := IndexOfId(pickup, id);
      if i.None? {
        return DateNotFound;
      }
      var date := pickup[i.value];
      if old(Valid()) {
        ResizedWellFormed(date, totalSlots, notes);
      }
      if writeOk {
        pickup := pickup[i.value := Resized(date, totalSlots, notes)];
      }
      r := Updated;
    }

    /** `DELETE /api/admin/available-dates/:id`: the entry is spliced out. */
    method DeleteDate(id: string, writeOk: bool) returns (r: DateOutcome)
      modifies this
      ensures match IndexOfId(old(pickup), id)
        case None => r == DateNotFound && pickup == old(pickup)
        case Some(i) =>
          r == Deleted &&
          pickup == if writeOk then old(pickup)[..i] + old(pickup)[i + 1..] else old(pickup)
      ensures old(Valid()) ==> Valid()
    {
      var i := IndexOfId(pickup, id);
      if i.None? {
        return DateNotFound;
      }
      if writeOk {
        ghost var before := pickup;
        pickup := pickup[..i.value] + pickup[i.value + 1..];
        assert forall j :: 0 <= j < |pickup| ==> pickup[j] == before[if j < i.value then j else j + 1];
      }
      r := Deleted;
    }

    /** `POST /api/admin/available-dates`, checks in the route's order. `dateOk` stands
        for the date-format and not-in-the-past checks; `newId` for the generated
        `date-<time>-<random>` id. A total of 0 counts as missing. */
    method AddDate(kind: string, date: string, totalSlots: int, notes: string, dateOk: bool,
                   newId: string, writeOk: bool) returns (r: DateOutcome)
      modifies this
      ensures kind == "" || date == "" || totalSlots == 0 ==> r == MissingFields
      ensures kind != "" && date != "" && totalSlots != 0 ==>
        r == if kind != "pickup" then InvalidType
             else if !SlotsInRange(totalSlots) then SlotsOutOfRange
             else if !dateOk then InvalidDate
             else if IndexOfDate(old(pickup), date).Some? then DuplicateDate
             else if !writeOk then SaveFailed
             else Added(AvailableDate(newId, date, totalSlots, totalSlots, notes))
      ensures r.Added? <==>
        && kind == "pickup" && date != "" && SlotsInRange(totalSlots) && dateOk
        && IndexOfDate(old(pickup), date).None? && writeOk
      ensures r.Added? ==> r.entry == AvailableDate(newId, date, totalSlots, totalSlots, notes)
                           && pickup == old(pickup) + [r.entry]
      ensures !r.Added? ==> pickup == old(pickup)
      ensures r.DuplicateDate? <==>
        && kind == "pickup" && date != "" && SlotsInRange(totalSlots) && dateOk
        && exists j :: 0 <= j < |old(pickup)| && old(pickup)[j].date == date
      ensures old(Valid()) ==> Valid()
    {
      if kind == "" || date == "" || totalSlots == 0 {
        return MissingFields;
      }
      if kind != "pickup" {
        return InvalidType;
      }
      if totalSlots < MinSlots || totalSlots > MaxSlots {
        return SlotsOutOfRange;
      }
      if !dateOk {
        return InvalidDate;
      }
      if IndexOfDate(pickup, date).Some? {
        return DuplicateDate;
      }
      var entry := AvailableDate(newId, date, totalSlots, totalSlots, notes);
      if !writeOk {
        return SaveFailed;
      }
      pickup := pickup + [entry];
      r := Added(entry);
    }
  }
}
