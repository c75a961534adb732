/** The event log of counts and the aggregation queries over it. The log
    is a sequence in insertion order; every query is a filter over time
    windows, a sum of the `count` fields, or an ordering newest first. */
module CountLog {
  import opened Common

  /** Defaults `add_count` fills in for absent body fields. */
  const UnknownDevice: string := "unknown"
  const UnknownAnimal: string := "desconhecido"

  /** SQLite stores an INTEGER column as a signed 64-bit value; binding a
      larger Python int raises, which fails the commit. */
  predicate FitsInteger(n: int) {
    -0x8000_0000_0000_0000 <= n < 0x8000_0000_0000_0000
  }

  /** One count event; `timestamp` is assigned by the server at insertion. */
  datatype Count = Count(id: string, deviceId: string, count: int, animalType: string, timestamp: int)

  /** The record `add_count` writes for a request body and clock reading. */
  function NewCount(id: string, deviceId: Option<string>, count: Option<int>,
                    animalType: Option<string>, now: int): (c: Count)
    ensures c.id == id && c.timestamp == now
    ensures c.deviceId == (if deviceId.Some? then deviceId.value else UnknownDevice)
    ensures c.count == (if count.Some? then count.value else 0)
    ensures c.animalType == (if animalType.Some? then animalType.value else UnknownAnimal)
  {
    Count(id, deviceId.GetOr(UnknownDevice), count.GetOr(0), animalType.GetOr(UnknownAnimal), now)
  }

  // ---------------------------------------------------------------------
  // Windows, filters and sums.

  /** A range of timestamps: from `from` on, up to `until` when given. */
  datatype Window = Window(from: int, until: Option<int>) {
    predicate Contains(t: int) {
      from <= t && (until.None? || t <= until.value)
    }
  }

  /** The open-ended window `timestamp >= from`. */
  function Since(from: int): Window {
    Window(from, None)
  }

  /** The records whose timestamp lies in the window, in log order. */
  function Select(log: seq<Count>, w: Window): (r: seq<Count>)
    ensures |r| <= |log|
  {
    if log == [] then []
    else
      var rest := Select(log[1..], w);
      if w.Contains(log[0].timestamp) then [log[0]] + rest else rest
  }

  /** A window's selection holds exactly the log's records in the window. */
  lemma {:induction false} SelectMembers(log: seq<Count>, w: Window)
    ensures forall c :: c in Select(log, w) <==> c in log && w.Contains(c.timestamp)
  {
    if log != [] {
      SelectMembers(log[1..], w);
      assert forall c :: c in log <==> c == log[0] || c in log[1..];
    }
  }

  /** `sum(c.count for c in records)`. */
  function Sum(records: seq<Count>): int {
    if records == [] then 0 else records[0].count + Sum(records[1..])
  }

  predicate NonNegative(log: seq<Count>) {
    forall i :: 0 <= i < |log| ==> log[i].count >= 0
  }

  lemma {:induction false} SumAppend(a: seq<Count>, b: seq<Count>)
    ensures Sum(a + b) == Sum(a) + Sum(b)
  {
    if a != [] {
      assert (a + b)[1..] == a[1..] + b;
      SumAppend(a[1..], b);
    } else {
      assert a + b == b;
    }
  }

  /** Appending a record extends a window's selection by that record
      exactly when the window holds its timestamp. */
  lemma {:induction false} SelectAppend(log: seq<Count>, c: Count, w: Window)
    ensures Select(log + [c], w) == Select(log, w) + (if w.Contains(c.timestamp) then [c] else [])
  {
    if log == [] {
      assert [c][1..] == [];
    } else {
      assert (log + [c])[1..] == log[1..] + [c];
      SelectAppend(log[1..], c, w);
    }
  }

  /** With non-negative counts, a window's sum is between zero and the
      total, and a later starting bound never sums to more. */
  lemma {:induction false} SinceMonotone(log: seq<Count>, early: int, late: int)
    requires NonNegative(log)
    requires early <= late
    ensures 0 <= Sum(Select(log, Since(late))) <= Sum(Select(log, Since(early))) <= Sum(log)
  {
    if log != [] {
      assert NonNegative(log[1..]) by {
        forall i | 0 <= i < |log[1..]| ensures log[1..][i].count >= 0 {
          assert log[1..][i] == log[i + 1];
        }
      }
      SinceMonotone(log[1..], early, late);
    }
  }

  // ---------------------------------------------------------------------
  // Ordering newest first (`order_by(Count.timestamp.desc())`).

  /** Each record is at least as recent as the one after it. */
  predicate NewestFirst(records: seq<Count>) {
    |records| <= 1 || (records[0].timestamp >= records[1].timestamp && NewestFirst(records[1..]))
  }

  /** Newest first means every record is at least as recent as every
      record after it. */
  lemma {:induction false} NewestFirstOrdered(records: seq<Count>)
    requires NewestFirst(records)
    ensures forall i, j :: 0 <= i < j < |records| ==> records[i].timestamp >= records[j].timestamp
  {
    if |records| > 1 {
      var tail := records[1..];
      NewestFirstOrdered(tail);
      forall i, j | 0 <= i < j < |records| ensures records[i].timestamp >= records[j].timestamp {
        assert records[j] == tail[j - 1];
        if i > 0 {
          assert records[i] == tail[i - 1];
        } else if j > 1 {
          assert tail[0].timestamp >= tail[j - 1].timestamp;
        }
      }
    }
  }

  /** Places `c` before the first record not newer than it. */
  function InsertNewest(c: Count, sorted: seq<Count>): (r: seq<Count>)
    ensures |r| == |sorted| + 1
  {
    if sorted == [] || c.timestamp >= sorted[0].timestamp then [c] + sorted
    else [sorted[0]] + InsertNewest(c, sorted[1..])
  }

  /** Insertion adds exactly the inserted record, and its count to the sum. */
  lemma {:induction false} InsertNewestContents(c: Count, sorted: seq<Count>)
    ensures multiset(InsertNewest(c, sorted)) == multiset(sorted) + multiset{c}
    ensures Sum(InsertNewest(c, sorted)) == c.count + Sum(sorted)
  {
    if sorted == [] || c.timestamp >= sorted[0].timestamp {
      assert ([c] + sorted)[1..] == sorted;
    } else {
      var head, tail := sorted[0], sorted[1..];
      InsertNewestContents(c, tail);
      var rest := InsertNewest(c, tail);
      assert ([head] + rest)[1..] == rest;
      assert sorted == [head] + tail;
    }
  }

  /** Insertion into a newest-first list keeps it newest first; its head
      is the inserted record or the old head. */
  lemma {:induction false} InsertNewestOrdered(c: Count, sorted: seq<Count>)
    requires NewestFirst(sorted)
    ensures NewestFirst(InsertNewest(c, sorted))
    ensures InsertNewest(c, sorted)[0] == c || (sorted != [] && InsertNewest(c, sorted)[0] == sorted[0])
  {
    var r := InsertNewest(c, sorted);
    if sorted == [] || c.timestamp >= sorted[0].timestamp {
      assert r[1..] == sorted;
    } else {
      InsertNewestOrdered(c, sorted[1..]);
      assert r[1..] == InsertNewest(c, sorted[1..]);
    }
  }

  /** The log ordered newest first (records with equal timestamps keep
      their log order). */
  function SortNewest(log: seq<Count>): (r: seq<Count>)
    ensures NewestFirst(r)
    ensures multiset(r) == multiset(log)
    ensures Sum(r) == Sum(log)
  {
    if log == [] then []
    else
      var rest := SortNewest(log[1..]);
      var r := InsertNewest(log[0], rest);
      assert multiset(r) == multiset(log) && Sum(r) == Sum(log) by {
        InsertNewestContents(log[0], rest);
        assert log == [log[0]] + log[1..];
      }
      assert NewestFirst(r) by {
        InsertNewestOrdered(log[0], rest);
      }
      r
  }

  // ---------------------------------------------------------------------
  // The three read routes over the log.

  /** `get_counts`: every record, newest first, and how many there are. */
  datatype CountList = CountList(counts: seq<Count>, total: nat)

  function AllCounts(log: seq<Count>): (r: CountList)
    ensures NewestFirst(r.counts)
    ensures multiset(r.counts) == multiset(log)
    ensures r.total == |r.counts| == |log|
  {
    var sorted := SortNewest(log);
    assert |sorted| == |multiset(sorted)| == |log|;
    CountList(sorted, |log|)
  }

  /** Start of the calendar day holding `now` (midnight of that day). */
  function DayStart(now: int): (s: int)
    ensures s <= now < s + Day
    ensures s % Day == 0
  {
    now - now % Day
  }

  /** Midnight through 23:59:59 of the day holding `now`. */
  function TodayWindow(now: int): Window {
    Window(DayStart(now), Some(DayStart(now) + Day - 1))
  }

  /** `get_today_counts`: today's records newest first, their total and
      their number. */
  datatype TodayList = TodayList(counts: seq<Count>, totalToday: int, records: nat)

  function TodayCounts(log: seq<Count>, now: int): (r: TodayList)
    ensures NewestFirst(r.counts)
    ensures multiset(r.counts) == multiset(Select(log, TodayWindow(now)))
    ensures forall c :: c in r.counts <==> c in log && DayStart(now) <= c.timestamp < DayStart(now) + Day
    ensures r.totalToday == Sum(r.counts) == Sum(Select(log, TodayWindow(now)))
    ensures r.records == |r.counts| == |Select(log, TodayWindow(now))|
  {
    var selected := Select(log, TodayWindow(now));
    SelectMembers(log, TodayWindow(now));
    var today := SortNewest(selected);
    forall c ensures c in today <==> c in selected {
      assert c in today <==> c in multiset(today);
      assert c in selected <==> c in multiset(selected);
    }
    TodayList(today, Sum(today), |today|)
  }

  /** `get_stats`: the total, the record count and the sums over today,
      the trailing 7 days and the trailing 30 days. */
  datatype StatsView = StatsView(totalAnimals: int, totalRecords: nat, today: int, thisWeek: int, thisMonth: int)

  function WeekStart(now: int): int { now - 7 * Day }
  function MonthStart(now: int): int { now - 30 * Day }

  function Stats(log: seq<Count>, now: int): StatsView {
    StatsView(Sum(log), |log|,
              Sum(Select(log, Since(DayStart(now)))),
              Sum(Select(log, Since(WeekStart(now)))),
              Sum(Select(log, Since(MonthStart(now)))))
  }

  /** With non-negative counts the windows nest:
      today <= this week <= this month <= all time. */
  lemma StatsNested(log: seq<Count>, now: int)
    requires NonNegative(log)
    ensures var s := Stats(log, now);
      0 <= s.today <= s.thisWeek <= s.thisMonth <= s.totalAnimals
  {
    SinceMonotone(log, MonthStart(now), WeekStart(now));
    SinceMonotone(log, WeekStart(now), DayStart(now));
  }

  /** Appending a record changes each window by that record's count
      exactly when the window holds its timestamp, and the record count
      by one. */
  lemma StatsAppend(log: seq<Count>, c: Count, now: int)
    ensures var before, after := Stats(log, now), Stats(log + [c], now);
      && after.totalRecords == before.totalRecords + 1
      && after.totalAnimals == before.totalAnimals + c.count
      && after.today == before.today + (if c.timestamp >= DayStart(now) then c.count else 0)
      && after.thisWeek == before.thisWeek + (if c.timestamp >= WeekStart(now) then c.count else 0)
      && after.thisMonth == before.thisMonth + (if c.timestamp >= MonthStart(now) then c.count else 0)
  {
    SumAppend(log, [c]);
    assert Sum([c]) == c.count;
    var bounds := [DayStart(now), WeekStart(now), MonthStart(now)];
    forall b | b in bounds
      ensures Sum(Select(log + [c], Since(b))) == Sum(Select(log, Since(b))) + (if c.timestamp >= b then c.count else 0)
    {
      SelectAppend(log, c, Since(b));
      SumAppend(Select(log, Since(b)), if Since(b).Contains(c.timestamp) then [c] else []);
    }
  }

  /** A record stamped with the current time adds its count to every
      window at that time. */
  lemma StatsAppendNow(log: seq<Count>, c: Count, now: int)
    requires c.timestamp == now
    ensures var before, after := Stats(log, now), Stats(log + [c], now);
      after == StatsView(before.totalAnimals + c.count, before.totalRecords + 1,
                         before.today + c.count, before.thisWeek + c.count, before.thisMonth + c.count)
  {
    StatsAppend(log, c, now);
  }

  /** When no record is stamped after `now`, the today route and the
      `today` counter of the stats route agree. */
  lemma {:induction false} TodayAgreesWithStats(log: seq<Count>, now: int)
    requires forall i :: 0 <= i < |log| ==> log[i].timestamp <= now
    ensures TodayCounts(log, now).totalToday == Stats(log, now).today
    ensures TodayCounts(log, now).records == |Select(log, Since(DayStart(now)))|
  {
    var today := TodayCounts(log, now);
    assert today.totalToday == Sum(Select(log, TodayWindow(now)));
    assert today.records == |Select(log, TodayWindow(now))|;
    SameSelection(log, now);
  }

  /** A record stamped after the end of the current day (as a UTC stamp
      is on a server west of UTC) counts towards the stats route's `today`
      but not towards the today route's total. */
  lemma TodayDisagreesWithStats(c: Count, now: int)
    requires c.timestamp == DayStart(now) + Day
    ensures TodayCounts([c], now).totalToday == 0
    ensures Stats([c], now).today == c.count
  {
  }

  lemma {:induction false} SameSelection(log: seq<Count>, now: int)
    requires forall i :: 0 <= i < |log| ==> log[i].timestamp <= now
    ensures Select(log, TodayWindow(now)) == Select(log, Since(DayStart(now)))
  {
    if log != [] {
      SameSelection(log[1..], now);
    }
  }

  /** Records at now, two days, ten days and forty days ago with counts
      1, 2, 4 and 8 give today 1, this week 3, this month 7 and total 15. */
  lemma StatsExample(now: int, a: Count, b: Count, c: Count, d: Count)
    requires a.timestamp == now && a.count == 1
    requires b.timestamp == now - 2 * Day && b.count == 2
    requires c.timestamp == now - 10 * Day && c.count == 4
    requires d.timestamp == now - 40 * Day && d.count == 8
    ensures Stats([a, b, c, d], now) == StatsView(15, 4, 1, 3, 7)
  {
    var log := [a, b, c, d];
    assert log[1..] == [b, c, d] && [b, c, d][1..] == [c, d] && [c, d][1..] == [d] && [d][1..] == [];
    assert [a, b][1..] == [b] && [a, b, c][1..] == [b, c];
    assert now - Day < DayStart(now) <= now;
    assert Sum([d]) == 8 && Sum([c, d]) == 12 && Sum(log) == 15;
    assert Sum([b]) == 2 && Sum([b, c]) == 6;
    var w := Since(DayStart(now));
    assert Select([c, d], w) == [] && Select([b, c, d], w) == [];
    var w' := Since(WeekStart(now));
    assert Select([c, d], w') == [] && Select(log, w') == [a, b];
    var w'' := Since(MonthStart(now));
    assert Select([d], w'') == [] && Select([b, c, d], w'') == [b, c];
  }
}
