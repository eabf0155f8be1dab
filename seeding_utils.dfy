/** The client-side calendar helpers (src/utils/seedingUtils.tsx): grouping events
    into month buckets, filtering them by a date range, and testing whether a date
    is recent. A date string "YYYY-MM-DD" is parsed as midnight UTC of its day, so
    a day number d stands for the instant `Instant(d)` in milliseconds; "now" and
    the range bounds are instants passed in. The month label is a function
    `monthKey` of the day supplied by the caller. */
module SeedingUtils {
  import opened Types
  import Seqs

  const MsPerDay: int := 86400000

  /** The instant `new Date("YYYY-MM-DD")` denotes. */
  function Instant(day: int): int
  {
    day * MsPerDay
  }

  /** The `type` argument of `groupByMonthYear`. */
  datatype DateKind = Germination | Harvest | History

  /** The date `groupByMonthYear` reads for each kind; anything but germination
      and harvest reads the planted date. */
  function SelectedDate(e: SeedingEvent, kind: DateKind): (d: Option<int>)
    ensures kind == Germination ==> d == e.germinationDate
    ensures kind == Harvest ==> d == e.harvestDate
    ensures kind == History ==> d == e.plantedDate
  {
    match kind
    case Germination => e.germinationDate
    case Harvest => e.harvestDate
    case History => e.plantedDate
  }

  /** Whether `e` belongs in the bucket `key`: its date is present and falls in
      that month. */
  function InBucket<K(==)>(kind: DateKind, monthKey: int -> K, key: K): SeedingEvent -> bool
  {
    (e: SeedingEvent) => SelectedDate(e, kind).Some? && monthKey(SelectedDate(e, kind).value) == key
  }

  /** The bucket `grouped[key]` is meant to hold. */
  function Bucket<K(==)>(events: seq<SeedingEvent>, kind: DateKind, monthKey: int -> K, key: K): seq<SeedingEvent>
  {
    Seqs.Filter(events, InBucket(kind, monthKey, key))
  }

  /** Every dated event lands in the bucket of its month and in no other; an
      undated event lands in none. */
  lemma EventInOneBucket<K>(events: seq<SeedingEvent>, kind: DateKind, monthKey: int -> K, i: nat, key: K)
    requires i < |events|
    ensures SelectedDate(events[i], kind).None? ==> events[i] !in Bucket(events, kind, monthKey, key)
    ensures SelectedDate(events[i], kind).Some? ==>
              (events[i] in Bucket(events, kind, monthKey, key) <==> key == monthKey(SelectedDate(events[i], kind).value))
  {
    var b := Bucket(events, kind, monthKey, key);
    if events[i] in b {
      var j :| 0 <= j < |b| && b[j] == events[i];
    }
  }

  /** The events with a date, in input order. */
  function Dated(events: seq<SeedingEvent>, kind: DateKind): seq<SeedingEvent>
  {
    Seqs.Filter(events, (e: SeedingEvent) => SelectedDate(e, kind).Some?)
  }

  /** The total size of the buckets listed in `keys`. */
  ghost function SizeSum<K>(grouped: map<K, seq<SeedingEvent>>, keys: set<K>): nat
    requires keys <= grouped.Keys
    decreases keys
  {
    if keys == {} then 0
    else
      var k :| k in keys;
      |grouped[k]| + SizeSum(grouped, keys - {k})
  }

  /** The sum does not depend on the order the keys are taken in. */
  lemma {:induction false} SizeSumPick<K>(grouped: map<K, seq<SeedingEvent>>, keys: set<K>, k: K)
    requires keys <= grouped.Keys && k in keys
    ensures SizeSum(grouped, keys) == |grouped[k]| + SizeSum(grouped, keys - {k})
    decreases keys
  {
    var k' :| k' in keys && SizeSum(grouped, keys) == |grouped[k']| + SizeSum(grouped, keys - {k'});
    if k' != k {
      SizeSumPick(grouped, keys - {k'}, k);
      SizeSumPick(grouped, keys - {k}, k');
      assert keys - {k'} - {k} == keys - {k} - {k'};
    }
  }

  /** Changing one bucket changes the sum by the change in its size. */
  lemma {:induction false} SizeSumUpdate<K>(grouped: map<K, seq<SeedingEvent>>, keys: set<K>, k: K, v: seq<SeedingEvent>)
    requires keys <= grouped.Keys && k in keys
    ensures SizeSum(grouped[k := v], keys) + |grouped[k]| == SizeSum(grouped, keys) + |v|
  {
    var g := grouped[k := v];
    SizeSumPick(grouped, keys, k);
    SizeSumPick(g, keys, k);
    SizeSumSame(grouped, g, keys - {k});
  }

  lemma {:induction false} SizeSumSame<K>(a: map<K, seq<SeedingEvent>>, b: map<K, seq<SeedingEvent>>, keys: set<K>)
    requires keys <= a.Keys && keys <= b.Keys
    requires forall k :: k in keys ==> a[k] == b[k]
    ensures SizeSum(a, keys) == SizeSum(b, keys)
    decreases keys
  {
    if keys != {} {
      var k :| k in keys && SizeSum(a, keys) == |a[k]| + SizeSum(a, keys - {k});
      SizeSumPick(b, keys, k);
      SizeSumSame(a, b, keys - {k});
    }
  }

  /** `grouped` is the grouping of `events`: its keys are exactly the months
      some dated event falls in, each bucket holds that month's events in input
      order, and the bucket sizes add up to the number of dated events. */
  ghost predicate Grouped<K(!new)>(grouped: map<K, seq<SeedingEvent>>, events: seq<SeedingEvent>, kind: DateKind, monthKey: int -> K)
  {
    && (forall key :: key in grouped <==> Bucket(events, kind, monthKey, key) != [])
    && (forall key :: key in grouped ==> grouped[key] == Bucket(events, kind, monthKey, key))
    && SizeSum(grouped, grouped.Keys) == |Dated(events, kind)|
  }

  /** The map after `grouped[monthYear].push(event)` (creating the bucket first
      if needed); an undated event leaves it as it is. */
  function Pushed<K(==)>(grouped: map<K, seq<SeedingEvent>>, event: SeedingEvent, kind: DateKind, monthKey: int -> K): map<K, seq<SeedingEvent>>
  {
    var d := SelectedDate(event, kind);
    if d.None? then grouped
    else
      var key := monthKey(d.value);
      grouped[key := (if key in grouped then grouped[key] else []) + [event]]
  }

  /** Appending an event extends exactly the bucket of its month. */
  lemma BucketStep<K>(events: seq<SeedingEvent>, event: SeedingEvent, kind: DateKind, monthKey: int -> K, key: K)
    ensures Bucket(events + [event], kind, monthKey, key)
            == Bucket(events, kind, monthKey, key) + (if InBucket(kind, monthKey, key)(event) then [event] else [])
  {
    var ev := events + [event];
    assert ev[..|ev| - 1] == events;
  }

  /** The bucket part of one `forEach` step. */
  lemma {:induction false} PushedBuckets<K(!new)>(grouped: map<K, seq<SeedingEvent>>, events: seq<SeedingEvent>, event: SeedingEvent, kind: DateKind, monthKey: int -> K)
    requires forall key :: key in grouped <==> Bucket(events, kind, monthKey, key) != []
    requires forall key :: key in grouped ==> grouped[key] == Bucket(events, kind, monthKey, key)
    ensures var g := Pushed(grouped, event, kind, monthKey);
            && (forall key :: key in g <==> Bucket(events + [event], kind, monthKey, key) != [])
            && (forall key :: key in g ==> g[key] == Bucket(events + [event], kind, monthKey, key))
  {
    var g := Pushed(grouped, event, kind, monthKey);
    forall key
      ensures key in g <==> Bucket(events + [event], kind, monthKey, key) != []
      ensures key in g ==> g[key] == Bucket(events + [event], kind, monthKey, key)
    {
      BucketStep(events, event, kind, monthKey, key);
    }
  }

  /** The counting part of one `forEach` step. */
  lemma {:induction false} PushedSum<K>(grouped: map<K, seq<SeedingEvent>>, events: seq<SeedingEvent>, event: SeedingEvent, kind: DateKind, monthKey: int -> K)
    requires SizeSum(grouped, grouped.Keys) == |Dated(events, kind)|
    ensures var g := Pushed(grouped, event, kind, monthKey);
            SizeSum(g, g.Keys) == |Dated(events + [event], kind)|
  {
    var ev := events + [event];
    assert ev[..|ev| - 1] == events;
    var d := SelectedDate(event, kind);
    if d.Some? {
      var key := monthKey(d.value);
      var g := Pushed(grouped, event, kind, monthKey);
      if key in grouped {
        SizeSumUpdate(grouped, grouped.Keys, key, grouped[key] + [event]);
        assert g.Keys == grouped.Keys;
      } else {
        SizeSumPick(g, g.Keys, key);
        assert g.Keys - {key} == grouped.Keys;
        SizeSumSame(g, grouped, grouped.Keys);
      }
    }
  }

  /** One step of the `forEach` keeps the grouping exact. */
  lemma {:induction false} PushedGroups<K(!new)>(grouped: map<K, seq<SeedingEvent>>, events: seq<SeedingEvent>, event: SeedingEvent, kind: DateKind, monthKey: int -> K)
    requires Grouped(grouped, events, kind, monthKey)
    ensures Grouped(Pushed(grouped, event, kind, monthKey), events + [event], kind, monthKey)
  {
    PushedBuckets(grouped, events, event, kind, monthKey);
    PushedSum(grouped, events, event, kind, monthKey);
  }

  /** The two statements of the `forEach` body compute `Pushed`. */
  lemma PushMatches<K>(grouped: map<K, seq<SeedingEvent>>, event: SeedingEvent, kind: DateKind, monthKey: int -> K)
    requires SelectedDate(event, kind).Some?
    ensures var monthYear := monthKey(SelectedDate(event, kind).value);
            var g1 := if monthYear !in grouped then grouped[monthYear := []] else grouped;
            g1[monthYear := g1[monthYear] + [event]] == Pushed(grouped, event, kind, monthKey)
  {
  }

  // ---------------------------------------------------------------------------
  // The order of the months. A `Record` lists its (non-numeric) keys in the
  // order they were created, and `Object.entries` hands them to the page in
  // that order.

  /** Where the first event of month `key` stands, or |events| when there is none. */
  function FirstIn<K(==)>(events: seq<SeedingEvent>, kind: DateKind, monthKey: int -> K, key: K): (i: nat)
    ensures i <= |events|
    ensures i < |events| ==> InBucket(kind, monthKey, key)(events[i])
    ensures forall j :: 0 <= j < i ==> !InBucket(kind, monthKey, key)(events[j])
    decreases |events|
  {
    if events == [] then 0
    else
      var p := FirstIn(events[..|events| - 1], kind, monthKey, key);
      if p < |events| - 1 then p
      else if InBucket(kind, monthKey, key)(events[|events| - 1]) then |events| - 1
      else |events|
  }

  /** The months in the order `groupByMonthYear` creates their buckets. */
  function MonthOrder<K(==)>(events: seq<SeedingEvent>, kind: DateKind, monthKey: int -> K): seq<K>
    decreases |events|
  {
    if events == [] then []
    else
      var prev := MonthOrder(events[..|events| - 1], kind, monthKey);
      var d := SelectedDate(events[|events| - 1], kind);
      if d.Some? && monthKey(d.value) !in prev then prev + [monthKey(d.value)] else prev
  }

  /** The months are listed once each, exactly the months with a dated event,
      in the order of their first dated event. */
  lemma {:induction false} MonthOrderFirstSeen<K>(events: seq<SeedingEvent>, kind: DateKind, monthKey: int -> K)
    ensures var order := MonthOrder(events, kind, monthKey);
            && (forall key :: key in order <==> FirstIn(events, kind, monthKey, key) < |events|)
            && (forall i, j :: 0 <= i < j < |order| ==>
                  FirstIn(events, kind, monthKey, order[i]) < FirstIn(events, kind, monthKey, order[j]))
    decreases |events|
  {
    if events != [] {
      var n := |events|;
      var p := events[..n - 1];
      MonthOrderFirstSeen(p, kind, monthKey);
      var prev := MonthOrder(p, kind, monthKey);
      var order := MonthOrder(events, kind, monthKey);
      forall key
        ensures FirstIn(p, kind, monthKey, key) < n - 1 ==> FirstIn(events, kind, monthKey, key) == FirstIn(p, kind, monthKey, key)
        ensures FirstIn(p, kind, monthKey, key) == n - 1 ==>
                  FirstIn(events, kind, monthKey, key) == if InBucket(kind, monthKey, key)(events[n - 1]) then n - 1 else n
      {
      }
      forall i, j | 0 <= i < j < |order|
        ensures FirstIn(events, kind, monthKey, order[i]) < FirstIn(events, kind, monthKey, order[j])
      {
        assert order[i] == prev[i];
        if j < |prev| {
          assert order[j] == prev[j];
        } else {
          var d := SelectedDate(events[n - 1], kind);
          assert order == prev + [monthKey(d.value)];
          var key := order[j];
          assert key !in prev;
          assert FirstIn(p, kind, monthKey, key) == n - 1;
          assert InBucket(kind, monthKey, key)(events[n - 1]);
          assert FirstIn(events, kind, monthKey, key) == n - 1;
          assert prev[i] in prev;
          assert FirstIn(p, kind, monthKey, prev[i]) < n - 1;
          assert FirstIn(events, kind, monthKey, prev[i]) == FirstIn(p, kind, monthKey, prev[i]);
        }
      }
    }
  }

  /** One more event adds its month at the end, unless the month is listed. */
  lemma MonthOrderAppend<K>(events: seq<SeedingEvent>, event: SeedingEvent, kind: DateKind, monthKey: int -> K)
    ensures var prev := MonthOrder(events, kind, monthKey);
            var d := SelectedDate(event, kind);
            MonthOrder(events + [event], kind, monthKey)
            == if d.Some? && monthKey(d.value) !in prev then prev + [monthKey(d.value)] else prev
  {
    var ev := events + [event];
    assert ev[..|ev| - 1] == events;
  }

  /** The key order after one `forEach` step: a month gets its bucket, and its
      place in the order, when its first event comes. */
  function PushedOrder<K(==)>(keyOrder: seq<K>, grouped: map<K, seq<SeedingEvent>>, event: SeedingEvent, kind: DateKind, monthKey: int -> K): seq<K>
  {
    var d := SelectedDate(event, kind);
    if d.Some? && monthKey(d.value) !in grouped then keyOrder + [monthKey(d.value)] else keyOrder
  }

  /** The loop state of `groupByMonthYear` after `events`: the grouping, and
      the months in the order their buckets were made. */
  ghost predicate Tracked<K(!new)>(grouped: map<K, seq<SeedingEvent>>, keyOrder: seq<K>, events: seq<SeedingEvent>, kind: DateKind, monthKey: int -> K)
  {
    && Grouped(grouped, events, kind, monthKey)
    && keyOrder == MonthOrder(events, kind, monthKey)
    && (forall key :: key in keyOrder <==> key in grouped)
  }

  /** The state of the `forEach` loop: the record and the order of its keys. */
  datatype Grouping<K> = Grouping(grouped: map<K, seq<SeedingEvent>>, keyOrder: seq<K>)

  /** One iteration of the `forEach`. */
  function GroupStep<K(==)>(g: Grouping<K>, event: SeedingEvent, kind: DateKind, monthKey: int -> K): Grouping<K>
  {
    Grouping(Pushed(g.grouped, event, kind, monthKey), PushedOrder(g.keyOrder, g.grouped, event, kind, monthKey))
  }

  /** The loop state after the events, taken in order. */
  function GroupFold<K(==)>(events: seq<SeedingEvent>, kind: DateKind, monthKey: int -> K): Grouping<K>
    decreases |events|
  {
    if events == [] then Grouping(map[], [])
    else GroupStep(GroupFold(events[..|events| - 1], kind, monthKey), events[|events| - 1], kind, monthKey)
  }

  /** One step of the `forEach` keeps the loop state exact. */
  lemma {:induction false} TrackedStep<K(!new)>(g: Grouping<K>, events: seq<SeedingEvent>, event: SeedingEvent, kind: DateKind, monthKey: int -> K)
    requires Tracked(g.grouped, g.keyOrder, events, kind, monthKey)
    ensures var n := GroupStep(g, event, kind, monthKey);
            Tracked(n.grouped, n.keyOrder, events + [event], kind, monthKey)
  {
    PushedGroups(g.grouped, events, event, kind, monthKey);
    MonthOrderAppend(events, event, kind, monthKey);
  }

  /** The loop state after any prefix is exact. */
  lemma {:induction false} GroupFoldTracked<K(!new)>(events: seq<SeedingEvent>, kind: DateKind, monthKey: int -> K)
    ensures Tracked(GroupFold(events, kind, monthKey).grouped, GroupFold(events, kind, monthKey).keyOrder, events, kind, monthKey)
    decreases |events|
  {
    if events == [] {
      assert forall key :: Bucket(events, kind, monthKey, key) == [];
    } else {
      var p, e := events[..|events| - 1], events[|events| - 1];
      GroupFoldTracked(p, kind, monthKey);
      TrackedStep(GroupFold(p, kind, monthKey), p, e, kind, monthKey);
      assert p + [e] == events;
    }
  }

  /** `groupByMonthYear`: the buckets, and `keyOrder`, the order in which the
      record's keys were created. */
  method GroupByMonthYear<K(==, !new)>(events: seq<SeedingEvent>, kind: DateKind, monthKey: int -> K)
    returns (grouped: map<K, seq<SeedingEvent>>, keyOrder: seq<K>)
    ensures forall key :: key in grouped <==> Bucket(events, kind, monthKey, key) != []
    ensures forall key :: key in grouped ==> grouped[key] == Bucket(events, kind, monthKey, key)
    ensures SizeSum(grouped, grouped.Keys) == |Dated(events, kind)|
    ensures keyOrder == MonthOrder(events, kind, monthKey)
    ensures forall key :: key in keyOrder <==> key in grouped
  {
    grouped := map[];
    keyOrder := [];
    var i := 0;
    while i < |events|
      invariant 0 <= i <= |events|
      invariant Grouping(grouped, keyOrder) == GroupFold(events[..i], kind, monthKey)
      decreases |events| - i
    {
      var event := events[i];
      assert events[..i + 1][..i] == events[..i];
      var dateStr := SelectedDate(event, kind);
      if dateStr.Some? {
        PushMatches(grouped, event, kind, monthKey);
        var monthYear := monthKey(dateStr.value);
        if monthYear !in grouped {
          grouped := grouped[monthYear := []];
          keyOrder := keyOrder + [monthYear];
        }
        grouped := grouped[monthYear := grouped[monthYear] + [event]];
      }
      i := i + 1;
    }
    assert events[..i] == events;
    GroupFoldTracked(events, kind, monthKey);
  }

  // ---------------------------------------------------------------------------
  // Range filtering and recency.

  /** The date fields `filterEventsInRange` is called with. */
  datatype DateField = PlantedDate | GerminationDate | HarvestDate

  function FieldDate(e: SeedingEvent, key: DateField): Option<int>
  {
    match key
    case PlantedDate => e.plantedDate
    case GerminationDate => e.germinationDate
    case HarvestDate => e.harvestDate
  }

  /** The predicate `filterEventsInRange` applies: a present date whose instant
      is within [startDate, endDate]. */
  function InRange(key: DateField, startDate: int, endDate: int): SeedingEvent -> bool
  {
    (e: SeedingEvent) => FieldDate(e, key).Some? && Instant(FieldDate(e, key).value) >= startDate && Instant(FieldDate(e, key).value) <= endDate
  }

  /** `filterEventsInRange`: the events, in input order, whose date is present
      and lies between the two instants, both ends included. */
  function FilterEventsInRange(events: seq<SeedingEvent>, key: DateField, startDate: int, endDate: int): (r: seq<SeedingEvent>)
    ensures |r| <= |events|
    ensures forall i :: 0 <= i < |r| ==>
              r[i] in events && FieldDate(r[i], key).Some?
              && startDate <= Instant(FieldDate(r[i], key).value) <= endDate
    ensures forall i ::
              (0 <= i < |events| && FieldDate(events[i], key).Some?
               && startDate <= Instant(FieldDate(events[i], key).value) <= endDate) ==> events[i] in r
  {
    Seqs.Filter(events, InRange(key, startDate, endDate))
  }

  /** With bounds at midnight of days s and e, the filter keeps exactly the
      events dated s to e, both days included. */
  lemma {:induction false} RangeOfDays(events: seq<SeedingEvent>, key: DateField, s: int, e: int)
    ensures var r := FilterEventsInRange(events, key, Instant(s), Instant(e));
            && (forall i :: 0 <= i < |r| ==> s <= FieldDate(r[i], key).value <= e)
            && (forall i ::
                  (0 <= i < |events| && FieldDate(events[i], key).Some?
                   && s <= FieldDate(events[i], key).value <= e) ==> events[i] in r)
  {
    var r := FilterEventsInRange(events, key, Instant(s), Instant(e));
    forall i | 0 <= i < |r| ensures s <= FieldDate(r[i], key).value <= e {
      var d := FieldDate(r[i], key).value;
      InstantMonotone(s, d);
      InstantMonotone(d, e);
    }
    forall i | 0 <= i < |events| && FieldDate(events[i], key).Some? && s <= FieldDate(events[i], key).value <= e
      ensures events[i] in r
    {
      var d := FieldDate(events[i], key).value;
      InstantMonotone(s, d);
      InstantMonotone(d, e);
    }
  }

  lemma InstantMonotone(a: int, b: int)
    ensures Instant(a) <= Instant(b) <==> a <= b
  {
  }

  /** A whole number of days reaches a time of day `t` iff it is at least
      one day, or at least none when `t` is midnight. */
  lemma WholeDaysReach(k: int, t: int)
    requires 0 <= t < MsPerDay
    ensures t == 0 ==> (k * MsPerDay >= t <==> k >= 0)
    ensures t > 0 ==> (k * MsPerDay >= t <==> k >= 1)
  {
    if k >= 1 {
      assert k * MsPerDay >= MsPerDay;
    } else if k <= 0 {
      assert k * MsPerDay <= 0;
    }
  }

  /** `isRecentEvent`: the event's midnight is no earlier than `pastDays` days
      before `now`. Read by days: at midnight the event may be `pastDays` days
      old; at any later moment of that day it must be younger. */
  function IsRecentEvent(eventDay: int, pastDays: int, now: int): (recent: bool)
    ensures now % MsPerDay == 0 ==> (recent <==> eventDay >= now / MsPerDay - pastDays)
    ensures now % MsPerDay != 0 ==> (recent <==> eventDay > now / MsPerDay - pastDays)
  {
    var today, t := now / MsPerDay, now % MsPerDay;
    assert now == today * MsPerDay + t;
    WholeDaysReach(eventDay - today + pastDays, t);
    assert (eventDay - today + pastDays) * MsPerDay == Instant(eventDay) - today * MsPerDay + pastDays * MsPerDay;
    Instant(eventDay) >= now - pastDays * MsPerDay
  }

  /** Called exactly at midnight of `today`, an event counts as recent when it is
      at most `pastDays` days old; at any later moment of that day, the day
      exactly `pastDays` back no longer counts. */
  lemma RecentBoundary(eventDay: int, pastDays: int, today: int, timeOfDay: int)
    requires 0 <= timeOfDay < MsPerDay
    ensures timeOfDay == 0 ==> (IsRecentEvent(eventDay, pastDays, Instant(today) + timeOfDay) <==> eventDay >= today - pastDays)
    ensures timeOfDay > 0 ==> (IsRecentEvent(eventDay, pastDays, Instant(today) + timeOfDay) <==> eventDay > today - pastDays)
  {
    var now := Instant(today) + timeOfDay;
    assert now / MsPerDay == today && now % MsPerDay == timeOfDay;
  }
}
