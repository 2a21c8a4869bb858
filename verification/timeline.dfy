/** The report builders of timeline.go: the timeline, a nested map from time
    bucket to database to the events of that database in that bucket; the
    per-cell reader `Events`; the paginated legend of the rule table; and
    the sorted list of database names. */
module Timeline {
  import opened Optional
  import Text
  import Sorting
  import Numbers
  import Matchers

  // ---- Time buckets

  /** The two bucket formats of the report: "2006-01-02" (a calendar day)
      and "2006-01-02 15:04" (a calendar minute, despite the `hourly` name
      of the switch that selects it). */
  datatype Granularity = Daily | Hourly

  /** The length of a bucket in seconds. */
  function Width(g: Granularity): (w: nat)
    ensures w > 0
  {
    match g
    case Daily => 86400
    case Hourly => 60
  }

  /** The bucket a time stamp (seconds since an epoch) falls into. Go formats
      each time stamp as text in its own location; the model takes all time
      stamps to share one zone and counts seconds in it. Two time stamps then
      format alike exactly when they share a day, or a minute, so the day or
      minute number stands for the formatted text. Dafny's `/` rounds
      down, as the calendar does for times before the epoch. */
  function BucketKey(t: int, g: Granularity): int
  {
    t / Width(g)
  }

  /** A bucket holds exactly the time stamps of one interval of its width. */
  lemma BucketInterval(t: int, g: Granularity, k: int)
    ensures BucketKey(t, g) == k <==> k * Width(g) <= t < (k + 1) * Width(g)
  {
    var w := Width(g);
    var q := t / w;
    assert q * w <= t < (q + 1) * w;
    if k < q {
      assert (k + 1) * w <= q * w;
    }
    if k > q {
      assert (q + 1) * w <= k * w;
    }
  }

  /** The hourly format keeps the minutes: time stamps a minute or more
      apart never share an hourly bucket. */
  lemma HourlyKeepsMinutes(t: int, d: int)
    requires d >= 60
    ensures BucketKey(t, Hourly) != BucketKey(t + d, Hourly)
  {
    var k := BucketKey(t, Hourly);
    BucketInterval(t, Hourly, k);
    BucketInterval(t + d, Hourly, k);
  }

  /** 10:00 and 10:30 of the same day
      fall into different hourly buckets but into the same daily one. */
  lemma HalfHourApart(day: int)
    ensures var t := day * 86400 + 10 * 3600;
      && BucketKey(t, Hourly) != BucketKey(t + 1800, Hourly)
      && BucketKey(t, Daily) == BucketKey(t + 1800, Daily)
  {
    var t := day * 86400 + 10 * 3600;
    BucketInterval(t, Hourly, day * 1440 + 600);
    BucketInterval(t + 1800, Hourly, day * 1440 + 630);
    BucketInterval(t, Daily, day);
    BucketInterval(t + 1800, Daily, day);
  }

  // ---- buildTimeline

  type Cells = map<string, seq<Matchers.ConfigEvent>>
  type Timeline = map<int, Cells>

  /** The events of `events` that fall into bucket `b`, in their order. */
  function InBucket(events: seq<Matchers.ConfigEvent>, b: int, g: Granularity): seq<Matchers.ConfigEvent>
  {
    if |events| == 0 then []
    else
      var last := events[|events| - 1];
      InBucket(events[..|events| - 1], b, g) + (if BucketKey(last.timeStamp, g) == b then [last] else [])
  }

  /** Filtering distributes over concatenation, so each cell keeps the
      events in their relative order. */
  lemma {:induction false} InBucketAppend(a: seq<Matchers.ConfigEvent>, c: seq<Matchers.ConfigEvent>, b: int, g: Granularity)
    ensures InBucket(a + c, b, g) == InBucket(a, b, g) + InBucket(c, b, g)
    decreases |c|
  {
    if |c| > 0 {
      var c' := c[..|c| - 1];
      assert (a + c)[..|a + c| - 1] == a + c';
      InBucketAppend(a, c', b, g);
    } else {
      assert a + c == a;
    }
  }

  /** Each occurrence of an event goes to the bucket of its time stamp and
      to no other: every event appears exactly once in the timeline. */
  lemma {:induction false} InBucketCount(events: seq<Matchers.ConfigEvent>, b: int, g: Granularity, e: Matchers.ConfigEvent)
    ensures multiset(InBucket(events, b, g))[e] == if BucketKey(e.timeStamp, g) == b then multiset(events)[e] else 0
    decreases |events|
  {
    if |events| > 0 {
      var init := events[..|events| - 1];
      InBucketCount(init, b, g, e);
      assert events == init + [events[|events| - 1]];
    }
  }

  /** A cell is empty exactly when no event falls into its bucket. */
  lemma {:induction false} InBucketEmpty(events: seq<Matchers.ConfigEvent>, b: int, g: Granularity)
    ensures |InBucket(events, b, g)| > 0 <==> exists i :: 0 <= i < |events| && BucketKey(events[i].timeStamp, g) == b
    decreases |events|
  {
    if |events| > 0 {
      var init := events[..|events| - 1];
      InBucketEmpty(init, b, g);
      if exists i :: 0 <= i < |init| && BucketKey(init[i].timeStamp, g) == b {
        var i :| 0 <= i < |init| && BucketKey(init[i].timeStamp, g) == b;
        assert events[i] == init[i];
      }
      if exists i :: 0 <= i < |events| && BucketKey(events[i].timeStamp, g) == b {
        var i :| 0 <= i < |events| && BucketKey(events[i].timeStamp, g) == b;
        if i < |init| {
          assert init[i] == events[i];
        }
      }
    }
  }

  /** The one step of the inner loop: `event` appended to the cell of
      database `db` in its bucket `k`, both created when missing. */
  function AddEvent(t: Timeline, k: int, db: string, event: Matchers.ConfigEvent): Timeline
  {
    var cells := if k in t then t[k] else map[];
    var cell := if db in cells then cells[db] else [];
    t[k := cells[db := cell + [event]]]
  }

  /** The cell `(b, d)` once the databases in `done` and the first `i`
      events of `db` have been placed. */
  ghost function Want(dbInfo: map<string, Matchers.DBInfo>, g: Granularity, done: set<string>,
                      db: string, i: nat, b: int, d: string): seq<Matchers.ConfigEvent>
  {
    if d in done && d in dbInfo then InBucket(dbInfo[d].events, b, g)
    else if d == db && d in dbInfo && i <= |dbInfo[d].events| then InBucket(dbInfo[d].events[..i], b, g)
    else []
  }

  /** Every bucket of the timeline has a cell. */
  ghost predicate NoEmptyBucket(t: Timeline)
  {
    forall b :: b in t ==> |t[b]| > 0
  }

  /** Every cell of the timeline is a non-empty wanted cell. */
  ghost predicate CellsWanted(t: Timeline, dbInfo: map<string, Matchers.DBInfo>, g: Granularity,
                              done: set<string>, db: string, i: nat)
  {
    forall b, d :: b in t && d in t[b] ==> t[b][d] == Want(dbInfo, g, done, db, i, b, d) && |t[b][d]| > 0
  }

  /** Every non-empty wanted cell is in the timeline. */
  ghost predicate WantedPresent(t: Timeline, dbInfo: map<string, Matchers.DBInfo>, g: Granularity,
                                done: set<string>, db: string, i: nat)
  {
    forall b, d :: |Want(dbInfo, g, done, db, i, b, d)| > 0 ==> b in t && d in t[b]
  }

  /** The timeline holds exactly the non-empty cells of `Want`, and no
      bucket without cells. */
  ghost predicate Placed(t: Timeline, dbInfo: map<string, Matchers.DBInfo>, g: Granularity,
                         done: set<string>, db: string, i: nat)
  {
    NoEmptyBucket(t) && CellsWanted(t, dbInfo, g, done, db, i) && WantedPresent(t, dbInfo, g, done, db, i)
  }

  /** `buildTimeline`: the cell of bucket `b` and database `db` holds the
      events of `db` that fall into `b`, in their order; a cell exists
      exactly when it would not be empty; every bucket has a cell. The
      inner key is the key of `dbInfo`, not the database name the events
      carry. */
  method BuildTimeline(dbInfo: map<string, Matchers.DBInfo>, g: Granularity) returns (t: Timeline)
    ensures forall b :: b in t ==> |t[b]| > 0
    ensures forall b, db :: b in t && db in t[b] ==> db in dbInfo && t[b][db] == InBucket(dbInfo[db].events, b, g)
    ensures forall b, db :: db in dbInfo && |InBucket(dbInfo[db].events, b, g)| > 0 ==> b in t && db in t[b]
    ensures forall b, db :: b in t && db in t[b] ==> |t[b][db]| > 0
  {
    t := map[];
    var done: set<string> := {};
    var remaining := dbInfo.Keys;
    Start(dbInfo, g);
    while remaining != {}
      invariant done <= dbInfo.Keys && remaining == dbInfo.Keys - done
      invariant Placed(t, dbInfo, g, done, "", 0)
      decreases |remaining|
    {
      var db :| db in remaining;
      t := PlaceDatabase(t, dbInfo, g, done, db);
      done := done + {db};
      remaining := remaining - {db};
    }
    assert done == dbInfo.Keys;
    Complete(t, dbInfo, g);
  }

  /** The inner loop of `buildTimeline`: the events of one database, each
      appended to the cell of its bucket. */
  method PlaceDatabase(t: Timeline, dbInfo: map<string, Matchers.DBInfo>, g: Granularity, done: set<string>, db: string)
    returns (r: Timeline)
    requires db in dbInfo && db !in done && Placed(t, dbInfo, g, done, "", 0)
    ensures Placed(r, dbInfo, g, done + {db}, "", 0)
  {
    var events := dbInfo[db].events;
    Restart(t, dbInfo, g, done, "", db);
    r := t;
    var i := 0;
    while i < |events|
      invariant 0 <= i <= |events|
      invariant Placed(r, dbInfo, g, done, db, i)
    {
      var k := BucketKey(events[i].timeStamp, g);
      PlaceStep(r, dbInfo, g, done, db, i);
      r := AddEvent(r, k, db, events[i]);
      i := i + 1;
    }
    Finish(r, dbInfo, g, done, db);
  }

  /** `Placed` depends on the wanted cells only. */
  lemma SameWant(t: Timeline, dbInfo: map<string, Matchers.DBInfo>, g: Granularity,
                 done: set<string>, db: string, i: nat, done': set<string>, db': string, i': nat)
    requires Placed(t, dbInfo, g, done, db, i)
    requires forall b, d :: Want(dbInfo, g, done, db, i, b, d) == Want(dbInfo, g, done', db', i', b, d)
    ensures Placed(t, dbInfo, g, done', db', i')
  {
  }

  /** The empty timeline is where nothing is placed yet. */
  lemma Start(dbInfo: map<string, Matchers.DBInfo>, g: Granularity)
    ensures Placed(map[], dbInfo, g, {}, "", 0)
  {
    forall b, d
      ensures Want(dbInfo, g, {}, "", 0, b, d) == []
    {
      if d in dbInfo {
        assert dbInfo[d].events[..0] == [];
      }
    }
  }

  /** Before its first event, the database in progress contributes nothing. */
  lemma Restart(t: Timeline, dbInfo: map<string, Matchers.DBInfo>, g: Granularity,
                done: set<string>, db: string, db': string)
    requires Placed(t, dbInfo, g, done, db, 0)
    ensures Placed(t, dbInfo, g, done, db', 0)
  {
    forall b, d
      ensures Want(dbInfo, g, done, db, 0, b, d) == Want(dbInfo, g, done, db', 0, b, d)
    {
      if d in dbInfo {
        assert dbInfo[d].events[..0] == [];
      }
    }
    SameWant(t, dbInfo, g, done, db, 0, done, db', 0);
  }

  /** After its last event, the database in progress is done. */
  lemma Finish(t: Timeline, dbInfo: map<string, Matchers.DBInfo>, g: Granularity, done: set<string>, db: string)
    requires db in dbInfo && Placed(t, dbInfo, g, done, db, |dbInfo[db].events|)
    ensures Placed(t, dbInfo, g, done + {db}, "", 0)
  {
    var n := |dbInfo[db].events|;
    forall b, d
      ensures Want(dbInfo, g, done, db, n, b, d) == Want(dbInfo, g, done + {db}, "", 0, b, d)
    {
      assert dbInfo[db].events[..n] == dbInfo[db].events;
      if d in dbInfo {
        assert dbInfo[d].events[..0] == [];
      }
    }
    SameWant(t, dbInfo, g, done, db, n, done + {db}, "", 0);
  }

  /** With every database done, the wanted cells are the bucket filters. */
  lemma Complete(t: Timeline, dbInfo: map<string, Matchers.DBInfo>, g: Granularity)
    requires Placed(t, dbInfo, g, dbInfo.Keys, "", 0)
    ensures forall b :: b in t ==> |t[b]| > 0
    ensures forall b, db :: b in t && db in t[b] ==> |t[b][db]| > 0
    ensures forall b, db :: b in t && db in t[b] ==> db in dbInfo && t[b][db] == InBucket(dbInfo[db].events, b, g)
    ensures forall b, db :: db in dbInfo && |InBucket(dbInfo[db].events, b, g)| > 0 ==> b in t && db in t[b]
  {
    forall b, db | b in t && db in t[b]
      ensures db in dbInfo
    {
      assert |Want(dbInfo, g, dbInfo.Keys, "", 0, b, db)| > 0;
    }
    forall b, db | db in dbInfo && |InBucket(dbInfo[db].events, b, g)| > 0
      ensures b in t && db in t[b]
    {
      assert |Want(dbInfo, g, dbInfo.Keys, "", 0, b, db)| > 0;
    }
  }

  /** One more event of `db` extends exactly the wanted cell of its bucket. */
  lemma WantStep(dbInfo: map<string, Matchers.DBInfo>, g: Granularity, done: set<string>, db: string, i: nat, b: int, d: string)
    requires db in dbInfo && db !in done && i < |dbInfo[db].events|
    ensures var e := dbInfo[db].events[i];
      Want(dbInfo, g, done, db, i + 1, b, d)
      == Want(dbInfo, g, done, db, i, b, d) + (if d == db && b == BucketKey(e.timeStamp, g) then [e] else [])
  {
    var events := dbInfo[db].events;
    if d == db {
      assert events[..i + 1][..i] == events[..i];
    }
  }

  /** Appending the next event of `db` to its cell keeps `Placed`. */
  lemma PlaceStep(t: Timeline, dbInfo: map<string, Matchers.DBInfo>, g: Granularity, done: set<string>, db: string, i: nat)
    requires db in dbInfo && db !in done && i < |dbInfo[db].events|
    requires Placed(t, dbInfo, g, done, db, i)
    ensures var e := dbInfo[db].events[i];
      Placed(AddEvent(t, BucketKey(e.timeStamp, g), db, e), dbInfo, g, done, db, i + 1)
  {
    var e := dbInfo[db].events[i];
    var k := BucketKey(e.timeStamp, g);
    var r := AddEvent(t, k, db, e);
    StepKeepsBuckets(t, k, db, e);
    StepKeepsCells(t, dbInfo, g, done, db, i, k, r);
    StepKeepsPresence(t, dbInfo, g, done, db, i, k, r);
  }

  lemma StepKeepsBuckets(t: Timeline, k: int, db: string, e: Matchers.ConfigEvent)
    requires NoEmptyBucket(t)
    ensures NoEmptyBucket(AddEvent(t, k, db, e))
  {
    var r := AddEvent(t, k, db, e);
    assert db in r[k];
  }

  lemma StepKeepsCells(t: Timeline, dbInfo: map<string, Matchers.DBInfo>, g: Granularity, done: set<string>, db: string, i: nat,
                       k: int, r: Timeline)
    requires db in dbInfo && db !in done && i < |dbInfo[db].events|
    requires k == BucketKey(dbInfo[db].events[i].timeStamp, g)
    requires CellsWanted(t, dbInfo, g, done, db, i) && WantedPresent(t, dbInfo, g, done, db, i)
    requires r == AddEvent(t, k, db, dbInfo[db].events[i])
    ensures CellsWanted(r, dbInfo, g, done, db, i + 1)
  {
    var e := dbInfo[db].events[i];
    var cell := if k in t && db in t[k] then t[k][db] else [];
    assert r[k] == (if k in t then t[k] else map[])[db := cell + [e]];
    assert cell == Want(dbInfo, g, done, db, i, k, db) by {
      if !(k in t && db in t[k]) {
        assert |Want(dbInfo, g, done, db, i, k, db)| == 0;
      }
    }
    forall b, d | b in r && d in r[b]
      ensures r[b][d] == Want(dbInfo, g, done, db, i + 1, b, d) && |r[b][d]| > 0
    {
      WantStep(dbInfo, g, done, db, i, b, d);
      if b != k || d != db {
        assert b in t && d in t[b];
      }
    }
  }

  lemma StepKeepsPresence(t: Timeline, dbInfo: map<string, Matchers.DBInfo>, g: Granularity, done: set<string>, db: string, i: nat,
                          k: int, r: Timeline)
    requires db in dbInfo && db !in done && i < |dbInfo[db].events|
    requires k == BucketKey(dbInfo[db].events[i].timeStamp, g)
    requires WantedPresent(t, dbInfo, g, done, db, i)
    requires r == AddEvent(t, k, db, dbInfo[db].events[i])
    ensures WantedPresent(r, dbInfo, g, done, db, i + 1)
  {
    var next := i + 1;
    forall b, d | |Want(dbInfo, g, done, db, next, b, d)| > 0
      ensures b in r && d in r[b]
    {
      PresentAt(t, dbInfo, g, done, db, i, k, r, b, d);
    }
  }

  lemma PresentAt(t: Timeline, dbInfo: map<string, Matchers.DBInfo>, g: Granularity, done: set<string>, db: string, i: nat,
                  k: int, r: Timeline, b: int, d: string)
    requires db in dbInfo && db !in done && i < |dbInfo[db].events|
    requires k == BucketKey(dbInfo[db].events[i].timeStamp, g)
    requires WantedPresent(t, dbInfo, g, done, db, i)
    requires r == AddEvent(t, k, db, dbInfo[db].events[i])
    requires 0 < |Want(dbInfo, g, done, db, i + 1, b, d)|
    ensures b in r && d in r[b]
  {
    WantStep(dbInfo, g, done, db, i, b, d);
    if b != k || d != db {
      assert b in t && d in t[b];
    } else {
      assert db in r[k];
    }
  }

  // ---- Events

  /** The order of `Events`: by time stamp. */
  function ByTime(): (Matchers.ConfigEvent, Matchers.ConfigEvent) -> bool
  {
    (a: Matchers.ConfigEvent, b: Matchers.ConfigEvent) => a.timeStamp <= b.timeStamp
  }

  lemma ByTimeIsTotalPreorder()
    ensures Sorting.TotalPreorder(ByTime())
  {
  }

  /** `Events`: nothing for a database without a cell, otherwise the cell's
      events in ascending time order. */
  function Events(cells: Cells, db: string): (r: seq<Matchers.ConfigEvent>)
    ensures db !in cells ==> r == []
    ensures db in cells ==> multiset(r) == multiset(cells[db])
    ensures forall i, j :: 0 <= i < j < |r| ==> r[i].timeStamp <= r[j].timeStamp
  {
    if db !in cells then []
    else
      ByTimeIsTotalPreorder();
      Sorting.Sort(cells[db], ByTime())
  }

  // ---- legend

  /** One slot of the legend: a rule's title and static icon. */
  datatype Entry = Entry(title: string, icon: string)

  /** The number of rows: the number of rules divided by the row length,
      rounded up. */
  function RowCount(n: nat, rowLen: nat): (rows: nat)
    requires rowLen > 0
    ensures n <= rows * rowLen
    ensures rows == 0 || (rows - 1) * rowLen < n
  {
    var q := n / rowLen;
    assert q * rowLen <= n < (q + 1) * rowLen;
    if n % rowLen != 0 then q + 1 else q
  }

  /** The slot of rule `p`: its title and static icon, or nothing past the
      last rule. */
  function Slot(rules: seq<Matchers.Rule>, p: int): Option<Entry>
  {
    if 0 <= p < |rules| then Some(Entry(Matchers.Title(rules[p]), Matchers.FallbackIcon(rules[p]))) else None
  }

  /** `legend`: `RowCount` rows of `rowLen` slots; slot `m` of row `n` holds
      the entry of rule `n * rowLen + m` while there is such a rule, and
      nothing after the last rule. */
  method Legend(rules: seq<Matchers.Rule>, rowLen: nat) returns (legend: seq<seq<Option<Entry>>>)
    requires rowLen > 0
    ensures |legend| == RowCount(|rules|, rowLen)
    ensures forall n :: 0 <= n < |legend| ==> |legend[n]| == rowLen
    ensures forall n, m :: 0 <= n < |legend| && 0 <= m < rowLen ==> legend[n][m] == Slot(rules, n * rowLen + m)
  {
    var rows := RowCount(|rules|, rowLen);
    legend := [];
    var n := 0;
    while n < rows
      invariant 0 <= n <= rows && |legend| == n
      invariant forall n' :: 0 <= n' < n ==> |legend[n']| == rowLen
      invariant forall n', m :: 0 <= n' < n && 0 <= m < rowLen ==> legend[n'][m] == Slot(rules, n' * rowLen + m)
    {
      var row := LegendRow(rules, n * rowLen, rowLen);
      legend := legend + [row];
      n := n + 1;
    }
  }

  /** One row of `legend`: the slots of the `rowLen` rules from `base` on,
      filled until the rules run out. */
  method LegendRow(rules: seq<Matchers.Rule>, base: nat, rowLen: nat) returns (row: seq<Option<Entry>>)
    ensures |row| == rowLen
    ensures forall m :: 0 <= m < rowLen ==> row[m] == Slot(rules, base + m)
  {
    row := seq(rowLen, _ => None);
    var m := 0;
    while m < rowLen
      invariant 0 <= m <= rowLen && |row| == rowLen
      invariant forall m' :: 0 <= m' < m ==> row[m'] == Slot(rules, base + m')
      invariant forall m' :: m <= m' < rowLen ==> row[m'] == None
    {
      var p := base + m;
      if p >= |rules| {
        assert forall m' :: m <= m' < rowLen ==> row[m'] == Slot(rules, base + m');
        break;
      }
      row := row[m := Some(Entry(Matchers.Title(rules[p]), Matchers.FallbackIcon(rules[p])))];
      m := m + 1;
    }
  }

  /** Every rule has its slot: rule `p` sits in row `p / rowLen`, at the
      column of the remainder `p % rowLen`, and the legend shows its title
      and static icon there. The row is written `Numbers.Quotient(p, rowLen)`
      and the column `p - n * rowLen`: the same numbers, computed by repeated
      subtraction, which keeps the proof free of nonlinear division. */
  lemma LegendPlacesEveryRule(rules: seq<Matchers.Rule>, rowLen: nat, legend: seq<seq<Option<Entry>>>, p: nat)
    requires rowLen > 0 && p < |rules| <= |legend| * rowLen
    requires forall n :: 0 <= n < |legend| ==> |legend[n]| == rowLen
    requires forall n, m :: 0 <= n < |legend| && 0 <= m < rowLen ==> legend[n][m] == Slot(rules, n * rowLen + m)
    ensures var n := Numbers.Quotient(p, rowLen);
      var m := p - n * rowLen;
      && n < |legend| && 0 <= m < |legend[n]|
      && legend[n][m] == Some(Entry(Matchers.Title(rules[p]), Matchers.FallbackIcon(rules[p])))
  {
    var n := Numbers.Quotient(p, rowLen);
    var m := p - n * rowLen;
    RowOfRule(p, rowLen, |legend|);
    assert 0 <= m < rowLen;
    assert legend[n][m] == Slot(rules, p);
  }

  /** A position below `rows * rowLen` lies in one of the first `rows` rows. */
  lemma RowOfRule(p: nat, rowLen: nat, rows: nat)
    requires rowLen > 0 && p < rows * rowLen
    ensures Numbers.Quotient(p, rowLen) < rows
  {
    var n := Numbers.Quotient(p, rowLen);
    assert n * rowLen <= p;
    assert (rows - n) * rowLen > 0;
  }

  // ---- initDBList

  /** The order of `slices.Sort` on strings: not greater. */
  function NotAfter(): (string, string) -> bool
  {
    (a: string, b: string) => !Text.Less(b, a)
  }

  lemma NotAfterIsTotalPreorder()
    ensures Sorting.TotalPreorder(NotAfter())
  {
    forall a: string, b: string
      ensures NotAfter()(a, b) || NotAfter()(b, a)
    {
      Text.LessAsymmetric(a, b);
    }
    forall a: string, b: string, c: string | NotAfter()(a, b) && NotAfter()(b, c)
      ensures NotAfter()(a, c)
    {
      NotAfterTransitive(a, b, c);
    }
  }

  lemma NotAfterTransitive(a: string, b: string, c: string)
    requires !Text.Less(b, a) && !Text.Less(c, b)
    ensures !Text.Less(c, a)
  {
    if a != b && b != c {
      Text.LessTotal(a, b);
      Text.LessTotal(b, c);
      Text.LessTransitive(a, b, c);
      Text.LessAsymmetric(a, c);
    } else if a == b {
      // nothing to show: c is not below b
    } else {
      // b == c: a is not above b
    }
  }

  /** `initDBList`: the keys of `dbInfo`, each once, in strictly ascending
      order. */
  method InitDBList(dbInfo: map<string, Matchers.DBInfo>) returns (keys: seq<string>)
    ensures |keys| == |dbInfo.Keys|
    ensures forall k :: k in keys <==> k in dbInfo
    ensures forall i, j :: 0 <= i < j < |keys| ==> Text.Less(keys[i], keys[j])
  {
    var collected: seq<string> := [];
    var remaining := dbInfo.Keys;
    while remaining != {}
      invariant remaining <= dbInfo.Keys
      invariant forall k :: k in collected <==> k in dbInfo && k !in remaining
      invariant |collected| + |remaining| == |dbInfo.Keys|
      invariant forall i, j :: 0 <= i < j < |collected| ==> collected[i] != collected[j]
      decreases |remaining|
    {
      var k :| k in remaining;
      collected := collected + [k];
      remaining := remaining - {k};
    }
    NotAfterIsTotalPreorder();
    keys := Sorting.Sort(collected, NotAfter());
    assert forall k :: k in keys <==> k in multiset(collected);
    DistinctSortedIsStrict(collected, keys);
  }

  /** A sorted permutation of a sequence without repetitions is strictly
      ascending. */
  lemma DistinctSortedIsStrict(s: seq<string>, r: seq<string>)
    requires forall i, j :: 0 <= i < j < |s| ==> s[i] != s[j]
    requires multiset(r) == multiset(s) && Sorting.SortedBy(r, NotAfter())
    ensures forall i, j :: 0 <= i < j < |r| ==> Text.Less(r[i], r[j])
  {
    forall i, j | 0 <= i < j < |r|
      ensures Text.Less(r[i], r[j])
    {
      DistinctPermutation(s, r, i, j);
      assert NotAfter()(r[i], r[j]);
      Text.LessTotal(r[i], r[j]);
    }
  }

  /** A permutation of a sequence without repetitions has none either. */
  lemma DistinctPermutation(s: seq<string>, r: seq<string>, i: nat, j: nat)
    requires forall i, j :: 0 <= i < j < |s| ==> s[i] != s[j]
    requires multiset(r) == multiset(s)
    requires i < j < |r|
    ensures r[i] != r[j]
  {
    CountAtMostOne(s, r[i]);
    TwoPlaces(r, i, j);
  }

  /** A value at two positions occurs at least twice. */
  lemma TwoPlaces(r: seq<string>, i: nat, j: nat)
    requires i < j < |r|
    ensures r[i] == r[j] ==> multiset(r)[r[i]] >= 2
  {
    assert r == r[..i] + [r[i]] + r[i + 1..j] + [r[j]] + r[j + 1..];
  }

  /** In a sequence without repetitions every value occurs at most once. */
  lemma {:induction false} CountAtMostOne(s: seq<string>, x: string)
    requires forall i, j :: 0 <= i < j < |s| ==> s[i] != s[j]
    ensures multiset(s)[x] <= 1
    decreases |s|
  {
    if |s| > 0 {
      var init := s[..|s| - 1];
      assert s == init + [s[|s| - 1]];
      CountAtMostOne(init, x);
      if s[|s| - 1] == x {
        assert forall i :: 0 <= i < |init| ==> init[i] != x by {
          assert forall i :: 0 <= i < |init| ==> init[i] == s[i];
        }
        assert x !in multiset(init);
      }
    }
  }
}
