/** The chronology builder of `lib/stream/export/Chronology.js`: inventory
    items grouped by class, dated and tagged events, the one-time seal that
    orders events by date, buckets them by calendar day and orders each
    inventory class by `index`, and the day-range and date helpers the
    templates call.

    Dates are instants in milliseconds (`EventData.Time`); a calendar day is
    `EventData.DayKey`, the day `toISOString().substr(0, 10)` names. Turning an
    attribute string into a date is the parameter `parseDate`, and the text a
    `Date` compares as under `==` is the parameter `dateText`. */
module ChronologyBuilder {
  import opened Results
  import opened Strings
  import opened Seqs
  import opened Sorting
  import opened EventData

  /** An event: its date, its tags when the `tags` attribute was given (split
      on `,`), and all of its attributes as declared. */
  datatype Event = Event(date: Time, tags: Option<seq<string>>, attrs: Attrs)

  /** The messages `warn` is called with. */
  datatype Warning = MissingClass | MissingDate

  /** `getDays` on an empty chronology without an explicit range reads the
      date of a missing event, which throws. */
  datatype Error = NoEventForDefaultRange

  /** The builder state. `eventByDate` is filled by the seal. */
  datatype Chronology = Chronology(
    inventory: map<string, seq<Attrs>>,
    events: seq<Event>,
    sealedEvents: bool,
    eventByDate: map<int, seq<Event>>,
    warnings: seq<Warning>)

  const EmptyChronology := Chronology(map[], [], false, map[], [])

  ////////////////////////////////////////////////////////////////////////////
  // command_inventory and command_event

  /** Every item of a class list has that class. */
  predicate OfClass(cls: string, items: seq<Attrs>) {
    forall i :: 0 <= i < |items| ==> Has(items[i], "class") && items[i]["class"] == cls
  }

  /** Every inventory item sits in the list of its own class. */
  predicate InventoryValid(c: Chronology) {
    forall cls :: cls in c.inventory ==> OfClass(cls, c.inventory[cls])
  }

  /** The constructor's state satisfies the invariant `command_inventory`
      keeps. */
  lemma {:induction false} EmptyChronologyValid()
    ensures InventoryValid(EmptyChronology)
  {
  }

  /** `command_inventory`: an item without `class` only warns; otherwise it is
      appended to its class list, which is created when absent. */
  function CommandInventory(c: Chronology, attrs: Attrs): (r: Chronology)
    ensures !Has(attrs, "class") ==> r == c.(warnings := c.warnings + [MissingClass])
    ensures Has(attrs, "class") ==>
      var cls := attrs["class"];
      && r.inventory.Keys == c.inventory.Keys + {cls}
      && r.inventory[cls] == (if cls in c.inventory then c.inventory[cls] else []) + [attrs]
      && (forall other :: other in c.inventory && other != cls ==> r.inventory[other] == c.inventory[other])
      && r == c.(inventory := r.inventory)
  {
    if !Has(attrs, "class") then c.(warnings := c.warnings + [MissingClass])
    else
      var cls := attrs["class"];
      var items := if cls in c.inventory then c.inventory[cls] else [];
      c.(inventory := c.inventory[cls := items + [attrs]])
  }

  lemma {:induction false} CommandInventoryValid(c: Chronology, attrs: Attrs)
    requires InventoryValid(c)
    ensures InventoryValid(CommandInventory(c, attrs))
  {
    var r := CommandInventory(c, attrs);
    if Has(attrs, "class") {
      var cls := attrs["class"];
      var before := if cls in c.inventory then c.inventory[cls] else [];
      assert OfClass(cls, before);
      assert forall i :: 0 <= i < |before| ==> r.inventory[cls][i] == before[i];
    }
  }

  /** The event `command_event` stores for `attrs`. */
  function MakeEvent(attrs: Attrs, parseDate: string -> Time): (e: Event)
    requires "date" in attrs
    ensures e.date == parseDate(attrs["date"]) && e.attrs == attrs
    ensures e.tags.Some? <==> "tags" in attrs
    ensures e.tags.Some? ==> Join(e.tags.value, ',') == attrs["tags"]
    ensures e.tags.Some? ==> forall i :: 0 <= i < |e.tags.value| ==> ',' !in e.tags.value[i]
  {
    JoinSplit(if "tags" in attrs then attrs["tags"] else "", ',');
    Event(parseDate(attrs["date"]), if "tags" in attrs then Some(Split(attrs["tags"], ',')) else None, attrs)
  }

  /** `command_event`: an event without `date` only warns; otherwise it is
      appended once, after every event already there. */
  function CommandEvent(c: Chronology, attrs: Attrs, parseDate: string -> Time): (r: Chronology)
    ensures !Has(attrs, "date") ==> r == c.(warnings := c.warnings + [MissingDate])
    ensures Has(attrs, "date") ==>
      && |r.events| == |c.events| + 1
      && r.events[..|c.events|] == c.events
      && r.events[|c.events|].attrs == attrs
      && r.events[|c.events|].date == parseDate(attrs["date"])
      && r.events[|c.events|] == MakeEvent(attrs, parseDate)
      && (r.events[|c.events|].tags.Some? <==> "tags" in attrs)
      && (r.events[|c.events|].tags.Some? ==> Join(r.events[|c.events|].tags.value, ',') == attrs["tags"])
      && r == c.(events := r.events)
  {
    if !Has(attrs, "date") then c.(warnings := c.warnings + [MissingDate])
    else c.(events := c.events + [MakeEvent(attrs, parseDate)])
  }

  ////////////////////////////////////////////////////////////////////////////
  // getEvents and getEvent

  /** The value `event[key]` compares as: the date's text, the tag list
      joined with `,` (how an array compares to a string), or the attribute. */
  function Field(e: Event, key: string, dateText: Time -> string): Option<string> {
    if key == "date" then Some(dateText(e.date))
    else if key == "tags" && e.tags.Some? then Some(Join(e.tags.value, ','))
    else if key in e.attrs then Some(e.attrs[key])
    else None
  }

  /** The test of `getEvents`: the event carries `tag` (an empty tag asks for
      none) and agrees with `match` on every key. */
  predicate EventMatches(e: Event, tag: string, wanted: map<string, string>, dateText: Time -> string) {
    && (tag == "" || (e.tags.Some? && tag in e.tags.value))
    && forall key :: key in wanted ==> Field(e, key, dateText) == Some(wanted[key])
  }

  function Matcher(tag: string, wanted: map<string, string>, dateText: Time -> string): Event -> bool {
    (e: Event) => EventMatches(e, tag, wanted, dateText)
  }

  /** `getEvents(tag, match)` on a chronology or a day: the matching events,
      in their order. */
  function GetEvents(events: seq<Event>, tag: string, wanted: map<string, string>, dateText: Time -> string): (r: seq<Event>)
    ensures forall e :: e in r <==> e in events && EventMatches(e, tag, wanted, dateText)
    ensures |r| <= |events|
  {
    Filter(events, Matcher(tag, wanted, dateText))
  }

  /** `getEvents` keeps the order of the events: one more event at the end
      is appended to the result exactly when it matches, and no event gives
      no result. */
  lemma {:induction false} GetEventsSnoc(events: seq<Event>, e: Event, tag: string, wanted: map<string, string>,
                                         dateText: Time -> string)
    ensures GetEvents([], tag, wanted, dateText) == []
    ensures GetEvents(events + [e], tag, wanted, dateText) ==
      GetEvents(events, tag, wanted, dateText) + (if EventMatches(e, tag, wanted, dateText) then [e] else [])
  {
    FilterSnoc(events, e, Matcher(tag, wanted, dateText));
  }

  /** `getEvent(tag, match)`: the first matching event, or none. */
  function GetEvent(events: seq<Event>, tag: string, wanted: map<string, string>, dateText: Time -> string): (r: Option<Event>)
    ensures r.None? <==> forall i :: 0 <= i < |events| ==> !EventMatches(events[i], tag, wanted, dateText)
    ensures r.Some? ==>
      exists i :: (0 <= i < |events| && events[i] == r.value &&
                   EventMatches(r.value, tag, wanted, dateText) &&
                   forall j :: 0 <= j < i ==> !EventMatches(events[j], tag, wanted, dateText))
  {
    var found := GetEvents(events, tag, wanted, dateText);
    if found == [] then
      assert forall i :: 0 <= i < |events| ==> !EventMatches(events[i], tag, wanted, dateText) by {
        forall i | 0 <= i < |events| ensures !EventMatches(events[i], tag, wanted, dateText) {
          assert events[i] in events;
        }
      }
      None
    else
      FilterFirst(events, Matcher(tag, wanted, dateText));
      assert found[0] in found;
      Some(found[0])
  }

  /** Without a tag and without a match, `getEvents` returns every event. */
  lemma {:induction false} GetEventsUnfiltered(events: seq<Event>, dateText: Time -> string)
    ensures GetEvents(events, "", map[], dateText) == events
  {
    FilterAll(events, Matcher("", map[], dateText));
  }

  /** Matching on `tags` compares the attribute as declared: splitting it on
      `,` and comparing the list loses nothing. */
  lemma {:induction false} MatchTagsIsAttribute(attrs: Attrs, parseDate: string -> Time, dateText: Time -> string, value: string)
    requires "date" in attrs
    ensures var e := MakeEvent(attrs, parseDate);
      Field(e, "tags", dateText) == Some(value) <==> "tags" in attrs && attrs["tags"] == value
  {
  }

  /** A tag test only ever keeps events that carry the tag. */
  lemma {:induction false} GetEventsByTag(events: seq<Event>, tag: string, dateText: Time -> string)
    requires tag != ""
    ensures forall e :: e in GetEvents(events, tag, map[], dateText) <==>
      e in events && e.tags.Some? && tag in e.tags.value
  {
  }

  ////////////////////////////////////////////////////////////////////////////
  // sealEvents

  /** The event comparator: by date. */
  predicate ByDate(a: Event, b: Event) {
    a.date <= b.date
  }

  lemma {:induction false} ByDateIsTotalPreorder()
    ensures IsTotalPreorder(ByDate)
  {
  }

  /** An inventory item's `index`, the empty string when it has none. */
  function IndexOf(item: Attrs): string {
    if "index" in item then item["index"] else ""
  }

  /** The inventory comparator: by `index`, as JavaScript compares strings. */
  predicate ByIndex(a: Attrs, b: Attrs) {
    LexLe(IndexOf(a), IndexOf(b))
  }

  lemma {:induction false} ByIndexIsTotalPreorder()
    ensures IsTotalPreorder(ByIndex)
  {
    forall a, b ensures ByIndex(a, b) || ByIndex(b, a) {
      LexLeTotal(IndexOf(a), IndexOf(b));
    }
    forall a, b, c | ByIndex(a, b) && ByIndex(b, c) ensures ByIndex(a, c) {
      LexLeTransitive(IndexOf(a), IndexOf(b), IndexOf(c));
    }
  }

  /** The test selecting the events of calendar day `day`. */
  function OnDay(day: int): Event -> bool {
    (e: Event) => DayKey(e.date) == day
  }

  /** `eventByDate` partitions `events` by calendar day, in their order. */
  ghost predicate Bucketed(events: seq<Event>, byDate: map<int, seq<Event>>) {
    && (forall day :: day in byDate <==> exists i :: 0 <= i < |events| && DayKey(events[i].date) == day)
    && (forall day :: day in byDate ==> byDate[day] == Filter(events, OnDay(day)))
  }

  /** Filing one more event keeps a partition by day a partition by day. */
  lemma {:induction false} BucketedSnoc(init: seq<Event>, e: Event, m: map<int, seq<Event>>)
    requires Bucketed(init, m)
    ensures Bucketed(init + [e], m[DayKey(e.date) := (if DayKey(e.date) in m then m[DayKey(e.date)] else []) + [e]])
  {
    BucketKeysSnoc(init, e, m);
    BucketValuesSnoc(init, e, m);
  }

  lemma {:induction false} BucketKeysSnoc(init: seq<Event>, e: Event, m: map<int, seq<Event>>)
    requires forall d :: d in m <==> exists i :: 0 <= i < |init| && DayKey(init[i].date) == d
    ensures var m2 := m[DayKey(e.date) := (if DayKey(e.date) in m then m[DayKey(e.date)] else []) + [e]];
      forall d :: d in m2 <==> exists i :: 0 <= i < |init + [e]| && DayKey((init + [e])[i].date) == d
  {
    var es := init + [e];
    var day := DayKey(e.date);
    var m2 := m[day := (if day in m then m[day] else []) + [e]];
    forall d ensures d in m2 <==> exists i :: 0 <= i < |es| && DayKey(es[i].date) == d {
      if d != day && d in m2 {
        var i :| 0 <= i < |init| && DayKey(init[i].date) == d;
        assert es[i] == init[i];
      }
      if d != day && exists i :: 0 <= i < |es| && DayKey(es[i].date) == d {
        var i :| 0 <= i < |es| && DayKey(es[i].date) == d;
        assert es[i] == init[i];
      }
      if d == day {
        assert DayKey(es[|init|].date) == d;
      }
    }
  }

  lemma {:induction false} BucketValuesSnoc(init: seq<Event>, e: Event, m: map<int, seq<Event>>)
    requires Bucketed(init, m)
    ensures var m2 := m[DayKey(e.date) := (if DayKey(e.date) in m then m[DayKey(e.date)] else []) + [e]];
      forall d :: d in m2 ==> m2[d] == Filter(init + [e], OnDay(d))
  {
    var day := DayKey(e.date);
    var m2 := m[day := (if day in m then m[day] else []) + [e]];
    forall d | d in m2 ensures m2[d] == Filter(init + [e], OnDay(d)) {
      FilterAppend(init, [e], OnDay(d));
      assert Filter([e], OnDay(d)) == (if d == day then [e] else []) by {
        assert [e][1..] == [];
      }
      if d == day && day !in m {
        forall i | 0 <= i < |init| ensures !OnDay(day)(init[i]) {
          assert DayKey(init[i].date) in m;
        }
        FilterNone(init, OnDay(day));
      }
    }
  }


  /** The `eventByDate` loop: each event pushed onto the bucket of its day,
      the bucket created on first use. */
  function Buckets(es: seq<Event>): (m: map<int, seq<Event>>)
    ensures Bucketed(es, m)
    decreases |es|
  {
    if es == [] then map[]
    else
      var init := es[..|es| - 1];
      var e := es[|es| - 1];
      var m := Buckets(init);
      var day := DayKey(e.date);
      BucketedSnoc(init, e, m);
      assert es == init + [e];
      m[day := (if day in m then m[day] else []) + [e]]
  }

  /** Each inventory class sorted by `index`. */
  function SortInventory(inventory: map<string, seq<Attrs>>): (r: map<string, seq<Attrs>>)
    ensures r.Keys == inventory.Keys
    ensures forall cls :: cls in r ==> SortedBy(r[cls], ByIndex) && multiset(r[cls]) == multiset(inventory[cls])
  {
    ByIndexIsTotalPreorder();
    map cls | cls in inventory :: SortBy(inventory[cls], ByIndex)
  }

  /** `sealEvents`: on the first call, events sorted by date and bucketed by
      day and every inventory class sorted by `index`; later calls change
      nothing. */
  function SealEvents(c: Chronology): (r: Chronology)
    ensures r.sealedEvents
    ensures c.sealedEvents ==> r == c
    ensures multiset(r.events) == multiset(c.events) && |r.events| == |c.events|
    ensures r.inventory.Keys == c.inventory.Keys
    ensures forall cls :: cls in r.inventory ==> multiset(r.inventory[cls]) == multiset(c.inventory[cls])
    ensures !c.sealedEvents ==>
      && SortedBy(r.events, ByDate)
      && Bucketed(r.events, r.eventByDate)
      && forall cls :: cls in r.inventory ==> SortedBy(r.inventory[cls], ByIndex)
    ensures r.warnings == c.warnings
  {
    if c.sealedEvents then c
    else
      ByDateIsTotalPreorder();
      var sorted := SortBy(c.events, ByDate);
      c.(events := sorted, eventByDate := Buckets(sorted), inventory := SortInventory(c.inventory), sealedEvents := true)
  }

  lemma {:induction false} SealEventsIdempotent(c: Chronology)
    ensures SealEvents(SealEvents(c)) == SealEvents(c)
  {
  }

  /** After the seal every event sits in exactly the bucket of its day, and
      every bucket is in date order. */
  lemma {:induction false} SealedBuckets(c: Chronology)
    requires !c.sealedEvents
    ensures var r := SealEvents(c);
      && (forall day, e :: day in r.eventByDate ==> (e in r.eventByDate[day] <==> e in c.events && DayKey(e.date) == day))
      && (forall e :: e in c.events ==> DayKey(e.date) in r.eventByDate && e in r.eventByDate[DayKey(e.date)])
      && (forall day :: day in r.eventByDate ==> SortedBy(r.eventByDate[day], ByDate))
  {
    var r := SealEvents(c);
    BucketedFacts(r.events, r.eventByDate);
    forall e ensures e in r.events <==> e in c.events {
      assert e in r.events <==> e in multiset(r.events);
      assert e in c.events <==> e in multiset(c.events);
    }
  }

  /** Buckets of a sorted run hold exactly the events of their day, every
      event sits in its day's bucket, and each bucket is sorted. */
  lemma {:induction false} BucketedFacts(events: seq<Event>, byDate: map<int, seq<Event>>)
    requires Bucketed(events, byDate) && SortedBy(events, ByDate)
    ensures forall day, e :: day in byDate ==> (e in byDate[day] <==> e in events && DayKey(e.date) == day)
    ensures forall e :: e in events ==> DayKey(e.date) in byDate && e in byDate[DayKey(e.date)]
    ensures forall day :: day in byDate ==> SortedBy(byDate[day], ByDate)
  {
    forall day | day in byDate ensures SortedBy(byDate[day], ByDate) {
      FilterSorted(events, OnDay(day), ByDate);
    }
    forall e | e in events ensures DayKey(e.date) in byDate && e in byDate[DayKey(e.date)] {
      var i :| 0 <= i < |events| && events[i] == e;
    }
  }


  /** Reordering a class list keeps every item in its class. */
  lemma {:induction false} OfClassPermutation(cls: string, a: seq<Attrs>, b: seq<Attrs>)
    requires multiset(a) == multiset(b) && OfClass(cls, b)
    ensures OfClass(cls, a)
  {
    forall i | 0 <= i < |a| ensures Has(a[i], "class") && a[i]["class"] == cls {
      assert a[i] in multiset(a);
      assert a[i] in b;
    }
  }

  lemma {:induction false} SealEventsInventoryValid(c: Chronology)
    requires InventoryValid(c)
    ensures InventoryValid(SealEvents(c))
  {
    var r := SealEvents(c);
    forall cls | cls in r.inventory ensures OfClass(cls, r.inventory[cls]) {
      OfClassPermutation(cls, r.inventory[cls], c.inventory[cls]);
    }
  }

  ////////////////////////////////////////////////////////////////////////////
  // getDays

  /** A calendar day of the range: its date and the events filed under it. */
  datatype Day = Day(date: Time, events: seq<Event>)

  /** The events filed under the day of `t`, none when there is no bucket. */
  function EventsOn(byDate: map<int, seq<Event>>, t: Time): seq<Event> {
    if DayKey(t) in byDate then byDate[DayKey(t)] else []
  }

  /** `days` steps a day at a time from `first`, up to and including the
      last date not after `last`, each day holding its bucket's events. */
  predicate DaysCover(days: seq<Day>, first: Time, last: Time, byDate: map<int, seq<Event>>) {
    && (forall i :: 0 <= i < |days| ==> days[i].date == first + i * DayMs && days[i].date <= last)
    && first + |days| * DayMs > last
    && (forall i :: 0 <= i < |days| ==> days[i].events == EventsOn(byDate, days[i].date))
  }

  /** The `for` loop of `getDays`: one day per step of a day from `date` while
      the date is not after `end`. */
  function DaysFrom(date: Time, end: Time, byDate: map<int, seq<Event>>): (r: seq<Day>)
    ensures DaysCover(r, date, end, byDate)
    decreases end - date
  {
    if date > end then []
    else
      var rest := DaysFrom(date + DayMs, end, byDate);
      assert forall i :: 1 <= i < |rest| + 1 ==> ([Day(date, EventsOn(byDate, date))] + rest)[i] == rest[i - 1];
      [Day(date, EventsOn(byDate, date))] + rest
  }

  /** `getDays(start, end)`: seals, defaults the range to the first and last
      event dates, and lists the days of the range. */
  function GetDays(c: Chronology, start: Option<Time>, end: Option<Time>): (r: Result<(Chronology, seq<Day>), Error>)
    ensures r.Failure? <==> (start.None? || end.None?) && c.events == []
    ensures r.Success? ==> r.value.0 == SealEvents(c) && RangeCovered(r.value.0, start, end, r.value.1)
  {
    var s := SealEvents(c);
    assert |s.events| == |c.events|;
    if (start.None? || end.None?) && s.events == [] then Failure(NoEventForDefaultRange)
    else
      var first := if start.Some? then start.value else s.events[0].date;
      var last := if end.Some? then end.value else s.events[|s.events| - 1].date;
      Success((s, DaysFrom(first, last, s.eventByDate)))
  }

  /** `days` covers the range from `start`, or else the first event's date,
      to `end`, or else the last event's date. */
  predicate RangeCovered(s: Chronology, start: Option<Time>, end: Option<Time>, days: seq<Day>) {
    && ((start.Some? && end.Some?) || s.events != [])
    && var first := if start.Some? then start.value else s.events[0].date;
       var last := if end.Some? then end.value else s.events[|s.events| - 1].date;
       DaysCover(days, first, last, s.eventByDate)
  }


  ////////////////////////////////////////////////////////////////////////////
  // Date helpers

  /** An instant moved by whole days stays at the same time of day. */
  lemma {:induction false} DayKeyShift(t: Time, n: int)
    ensures DayKey(t + n * DayMs) == DayKey(t) + n
  {
    var q := DayKey(t);
    assert (q + n) * DayMs <= t + n * DayMs < (q + n + 1) * DayMs;
    DivUnique(t + n * DayMs, q + n);
  }

  /** A quotient is pinned down by the bounds it satisfies. */
  lemma {:induction false} DivUnique(a: int, q: int)
    requires q * DayMs <= a < (q + 1) * DayMs
    ensures a / DayMs == q
  {
    var d := a / DayMs;
    assert d * DayMs <= a < (d + 1) * DayMs;
  }

  /** The days of a `getDays` range are consecutive calendar days. */
  lemma {:induction false} DaysAreConsecutive(date: Time, end: Time, byDate: map<int, seq<Event>>)
    ensures forall i :: 0 <= i < |DaysFrom(date, end, byDate)| ==>
      DayKey(DaysFrom(date, end, byDate)[i].date) == DayKey(date) + i
  {
    forall i | 0 <= i < |DaysFrom(date, end, byDate)|
      ensures DayKey(DaysFrom(date, end, byDate)[i].date) == DayKey(date) + i
    {
      DayKeyShift(date, i);
    }
  }

  function Abs(x: int): nat {
    if x < 0 then -x else x
  }

  /** `numberOfDays(date1, date2)`: the distance in days, rounded up. */
  function NumberOfDays(t1: Time, t2: Time): (n: nat)
    ensures n * DayMs >= Abs(t2 - t1)
    ensures n == 0 || (n - 1) * DayMs < Abs(t2 - t1)
  {
    var d := Abs(t2 - t1);
    var n := (d + DayMs - 1) / DayMs;
    assert n * DayMs <= d + DayMs - 1 < (n + 1) * DayMs;
    n
  }

  lemma {:induction false} NumberOfDaysSymmetric(t1: Time, t2: Time)
    ensures NumberOfDays(t1, t2) == NumberOfDays(t2, t1)
  {
  }

  /** Only the instants of one day are zero days apart. */
  lemma {:induction false} NumberOfDaysZero(t1: Time, t2: Time)
    ensures NumberOfDays(t1, t2) == 0 <==> t1 == t2
  {
  }

  /** Between instants a whole number of days apart the distance is that
      number, so a range of day starts has `numberOfDays + 1` days. */
  lemma {:induction false} NumberOfDaysWhole(t: Time, n: nat)
    ensures NumberOfDays(t, t + n * DayMs) == n
  {
    assert Abs(n * DayMs) == n * DayMs;
  }

  /** A range holds one day more than the whole days from its start to its end. */
  lemma {:induction false} DaysFromLength(date: Time, end: Time, byDate: map<int, seq<Event>>)
    ensures |DaysFrom(date, end, byDate)| == if end < date then 0 else (end - date) / DayMs + 1
    decreases end - date
  {
    if date <= end {
      DaysFromLength(date + DayMs, end, byDate);
      if end < date + DayMs {
        DivUnique(end - date, 0);
      } else {
        DayKeyShift(end - date, -1);
      }
    }
  }

  /** From one instant to the same time of day `n` days later, `getDays`
      lists `numberOfDays + 1` days. */
  lemma {:induction false} GetDaysCount(start: Time, n: nat, byDate: map<int, seq<Event>>)
    ensures |DaysFrom(start, start + n * DayMs, byDate)| == NumberOfDays(start, start + n * DayMs) + 1
  {
    NumberOfDaysWhole(start, n);
    DaysFromLength(start, start + n * DayMs, byDate);
    DivUnique(n * DayMs, n);
  }

  /** `daysAfter(date, days)`: the calendar day `days` days after `date`. */
  function DaysAfter(t: Time, days: int): (d: int)
    ensures d == DayKey(t) + days
  {
    DayKeyShift(t, days);
    DayKey(t + days * DayMs)
  }

  /** The day of the week of an instant, 0 for Sunday: 1970-01-01 was a Thursday. */
  function Weekday(t: Time): (w: int)
    ensures 0 <= w < 7
  {
    (DayKey(t) + 4) % 7
  }

  /** `isWeekEnd(date)`: Saturday or Sunday. */
  predicate IsWeekEnd(t: Time) {
    Weekday(t) == 0 || Weekday(t) == 6
  }

  /** The weekday advances by one each day, wrapping after Saturday. */
  lemma {:induction false} WeekdayNextDay(t: Time)
    ensures Weekday(t + DayMs) == (Weekday(t) + 1) % 7
  {
    DayKeyShift(t, 1);
  }

  /** The number of week-end days among `n` consecutive days from `t`. */
  function WeekEndDays(t: Time, n: nat): nat
    decreases n
  {
    if n == 0 then 0 else (if IsWeekEnd(t) then 1 else 0) + WeekEndDays(t + DayMs, n - 1)
  }

  /** The number of week-end days among `n` consecutive days starting on
      weekday `w`. */
  function WeekEndsFrom(w: int, n: nat): nat
    requires 0 <= w < 7
    decreases n
  {
    if n == 0 then 0 else (if w == 0 || w == 6 then 1 else 0) + WeekEndsFrom(if w == 6 then 0 else w + 1, n - 1)
  }

  /** Counting week-end days only needs the weekday of the first day. */
  lemma {:induction false} WeekEndDaysByWeekday(t: Time, n: nat)
    ensures WeekEndDays(t, n) == WeekEndsFrom(Weekday(t), n)
    decreases n
  {
    if n > 0 {
      WeekdayNextDay(t);
      WeekEndDaysByWeekday(t + DayMs, n - 1);
    }
  }

  /** Whatever the first weekday, a week holds two week-end days. */
  lemma {:induction false} WeekEndsFromSeven(w: int)
    requires 0 <= w < 7
    ensures WeekEndsFrom(w, 7) == 2
  {
    if w == 0 {
      assert WeekEndsFrom(0, 7) == 2;
    } else if w == 1 {
      assert WeekEndsFrom(1, 7) == 2;
    } else if w == 2 {
      assert WeekEndsFrom(2, 7) == 2;
    } else if w == 3 {
      assert WeekEndsFrom(3, 7) == 2;
    } else if w == 4 {
      assert WeekEndsFrom(4, 7) == 2;
    } else if w == 5 {
      assert WeekEndsFrom(5, 7) == 2;
    } else {
      assert WeekEndsFrom(6, 7) == 2;
    }
  }

  /** Any seven consecutive days hold exactly two week-end days. */
  lemma {:induction false} TwoWeekEndDaysAWeek(t: Time)
    ensures WeekEndDays(t, 7) == 2
  {
    WeekEndDaysByWeekday(t, 7);
    WeekEndsFromSeven(Weekday(t));
  }

  /** 1970-01-01 was a Thursday and 1970-01-03 a Saturday. */
  lemma {:induction false} WeekEndExamples()
    ensures !IsWeekEnd(0)
    ensures IsWeekEnd(2 * DayMs) && IsWeekEnd(3 * DayMs)
    ensures !IsWeekEnd(4 * DayMs)
  {
    DayKeyShift(0, 2);
    DayKeyShift(0, 3);
    DayKeyShift(0, 4);
  }
}
