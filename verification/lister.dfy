/** The standalone lister of main.go: it reads the audit-log records of
    several sources, keeps the configuration changes of the databases asked
    for, and orders them by time, or by database and then time. Its record
    type is its own and shares nothing with the report's events. */
module Lister {
  import Text
  import Sorting

  /** A row of the audit log: its time stamp, database name, change
      description and activity. */
  datatype Record = Record(timeStamp: int, database: string, change: string, activity: string)

  /** The activity of the rows the lister reports. */
  const Configuration: string := "Configuration"

  /** A record is kept when it is a configuration change and either no
      databases were asked for or its database is one of them. */
  predicate Kept(r: Record, databases: seq<string>)
  {
    r.activity == Configuration && (|databases| == 0 || r.database in databases)
  }

  /** The kept records of one source, in row order. */
  function KeptOf(rows: seq<Record>, databases: seq<string>): seq<Record>
  {
    if |rows| == 0 then []
    else
      var last := rows[|rows| - 1];
      KeptOf(rows[..|rows| - 1], databases) + (if Kept(last, databases) then [last] else [])
  }

  /** The kept records of all sources: source by source, each in row order. */
  function KeptRecords(sources: seq<seq<Record>>, databases: seq<string>): seq<Record>
  {
    if |sources| == 0 then []
    else KeptRecords(sources[..|sources| - 1], databases) + KeptOf(sources[|sources| - 1], databases)
  }

  /** A record is among the kept ones exactly when some source holds it and
      it passes the filter. */
  lemma {:induction false} KeptOfMembers(rows: seq<Record>, databases: seq<string>, r: Record)
    ensures r in KeptOf(rows, databases) <==> r in rows && Kept(r, databases)
    decreases |rows|
  {
    if |rows| > 0 {
      var init := rows[..|rows| - 1];
      KeptOfMembers(init, databases, r);
      assert rows == init + [rows[|rows| - 1]];
    }
  }

  lemma {:induction false} KeptRecordsMembers(sources: seq<seq<Record>>, databases: seq<string>, r: Record)
    ensures r in KeptRecords(sources, databases) <==> (exists k :: 0 <= k < |sources| && r in sources[k]) && Kept(r, databases)
    decreases |sources|
  {
    if |sources| > 0 {
      var init := sources[..|sources| - 1];
      var last := sources[|sources| - 1];
      KeptRecordsMembers(init, databases, r);
      KeptOfMembers(last, databases, r);
      if exists k :: 0 <= k < |init| && r in init[k] {
        var k :| 0 <= k < |init| && r in init[k];
        assert sources[k] == init[k];
      }
      if exists k :: 0 <= k < |sources| && r in sources[k] {
        var k :| 0 <= k < |sources| && r in sources[k];
        if k < |init| {
          assert init[k] == sources[k];
        }
      }
    }
  }

  /** Filtering keeps row order across the seam of two parts of a source. */
  lemma {:induction false} KeptOfAppend(a: seq<Record>, b: seq<Record>, databases: seq<string>)
    ensures KeptOf(a + b, databases) == KeptOf(a, databases) + KeptOf(b, databases)
    decreases |b|
  {
    if |b| > 0 {
      var b' := b[..|b| - 1];
      assert (a + b)[..|a + b| - 1] == a + b';
      KeptOfAppend(a, b', databases);
    } else {
      assert a + b == a;
    }
  }

  /** Sources are reported one after another: the kept records of two runs
      of sources are those of the first followed by those of the second. */
  lemma {:induction false} KeptRecordsAppend(a: seq<seq<Record>>, b: seq<seq<Record>>, databases: seq<string>)
    ensures KeptRecords(a + b, databases) == KeptRecords(a, databases) + KeptRecords(b, databases)
    decreases |b|
  {
    if |b| > 0 {
      var b' := b[..|b| - 1];
      assert (a + b)[..|a + b| - 1] == a + b';
      assert (a + b)[|a + b| - 1] == b[|b| - 1];
      KeptRecordsAppend(a, b', databases);
    } else {
      assert a + b == a;
    }
  }

  /** The whitelist check of the filter loop: a linear search that stops at
      the first equal name. */
  method Whitelisted(database: string, databases: seq<string>) returns (ok: bool)
    ensures ok <==> |databases| == 0 || database in databases
  {
    ok := true;
    if |databases| > 0 {
      ok := false;
      var n := 0;
      while n < |databases|
        invariant 0 <= n <= |databases|
        invariant !ok
        invariant database !in databases[..n]
      {
        if database == databases[n] {
          ok := true;
          break;
        }
        n := n + 1;
      }
      assert !ok ==> databases[..n] == databases;
    }
  }

  /** The filter loop of the lister: every row of every source, in order,
      appended when it is kept. */
  method Collect(sources: seq<seq<Record>>, databases: seq<string>) returns (events: seq<Record>)
    ensures events == KeptRecords(sources, databases)
  {
    events := [];
    var s := 0;
    while s < |sources|
      invariant 0 <= s <= |sources|
      invariant events == KeptRecords(sources[..s], databases)
    {
      var rows := sources[s];
      var n := 0;
      while n < |rows|
        invariant 0 <= n <= |rows|
        invariant events == KeptRecords(sources[..s], databases) + KeptOf(rows[..n], databases)
      {
        var event := rows[n];
        if event.activity == Configuration {
          var ok := Whitelisted(event.database, databases);
          if ok {
            events := events + [event];
          }
        }
        assert rows[..n + 1][..n] == rows[..n];
        n := n + 1;
      }
      assert rows[..n] == rows;
      assert sources[..s + 1][..s] == sources[..s];
      s := s + 1;
    }
    assert sources[..s] == sources;
  }

  // ---- Ordering

  /** `ConfigEvents.Less`, the comparator of the lister's sort: by database
      name first when `dbSort` is set and the names differ, by time stamp
      otherwise. Go compares strings byte by byte in UTF-8, which orders them
      as their code points do. */
  predicate Less(dbSort: bool, a: Record, b: Record)
  {
    if dbSort && a.database != b.database then Text.Less(a.database, b.database)
    else a.timeStamp < b.timeStamp
  }

  lemma LessIrreflexive(dbSort: bool, a: Record)
    ensures !Less(dbSort, a, a)
  {
  }

  lemma LessAsymmetric(dbSort: bool, a: Record, b: Record)
    ensures Less(dbSort, a, b) ==> !Less(dbSort, b, a)
  {
    if dbSort && a.database != b.database {
      Text.LessAsymmetric(a.database, b.database);
    }
  }

  lemma LessTransitive(dbSort: bool, a: Record, b: Record, c: Record)
    ensures Less(dbSort, a, b) && Less(dbSort, b, c) ==> Less(dbSort, a, c)
  {
    if dbSort && Less(dbSort, a, b) && Less(dbSort, b, c) {
      NamesTransitive(a, b, c);
    }
  }

  /** The database-first order is transitive across equal and distinct
      names alike. */
  lemma NamesTransitive(a: Record, b: Record, c: Record)
    requires Less(true, a, b) && Less(true, b, c)
    ensures Less(true, a, c)
  {
    if a.database != b.database && b.database != c.database {
      Text.LessTransitive(a.database, b.database, c.database);
      Text.LessIrreflexive(a.database);
    }
  }

  /** The order the sort establishes: not greater. */
  function NotAfter(dbSort: bool): (Record, Record) -> bool
  {
    (a: Record, b: Record) => !Less(dbSort, b, a)
  }

  lemma NotAfterIsTotalPreorder(dbSort: bool)
    ensures Sorting.TotalPreorder(NotAfter(dbSort))
  {
    forall a: Record, b: Record
      ensures NotAfter(dbSort)(a, b) || NotAfter(dbSort)(b, a)
    {
      LessAsymmetric(dbSort, a, b);
    }
    forall a: Record, b: Record, c: Record | NotAfter(dbSort)(a, b) && NotAfter(dbSort)(b, c)
      ensures NotAfter(dbSort)(a, c)
    {
      NotAfterTransitive(dbSort, a, b, c);
    }
  }

  lemma NotAfterTransitive(dbSort: bool, a: Record, b: Record, c: Record)
    requires !Less(dbSort, b, a) && !Less(dbSort, c, b)
    ensures !Less(dbSort, c, a)
  {
    if dbSort {
      if a.database != b.database {
        Text.LessTotal(a.database, b.database);
      }
      if b.database != c.database {
        Text.LessTotal(b.database, c.database);
      }
      if a.database != b.database && b.database != c.database {
        Text.LessTransitive(a.database, b.database, c.database);
        Text.LessAsymmetric(a.database, c.database);
        Text.LessIrreflexive(a.database);
      }
    }
  }

  /** Two records in the order of the sort, spelled out: by time stamp, or
      by database name and then time stamp. */
  lemma InOrder(dbSort: bool, a: Record, b: Record)
    requires !Less(dbSort, b, a)
    ensures !dbSort ==> a.timeStamp <= b.timeStamp
    ensures dbSort ==> Text.Less(a.database, b.database) || (a.database == b.database && a.timeStamp <= b.timeStamp)
  {
    if dbSort && a.database != b.database {
      Text.LessTotal(a.database, b.database);
    }
  }

  /** The lister: the kept records, reordered when there are at least two of
      them or the database order was asked for. The result holds the kept
      records, each as often as the sources do, with no record behind one
      it is `Less` than. */
  method ListConfigEvents(sources: seq<seq<Record>>, databases: seq<string>, dbSort: bool) returns (events: seq<Record>)
    ensures multiset(events) == multiset(KeptRecords(sources, databases))
    ensures forall i, j :: 0 <= i < j < |events| ==> !Less(dbSort, events[j], events[i])
    ensures !dbSort ==> forall i, j :: 0 <= i < j < |events| ==> events[i].timeStamp <= events[j].timeStamp
    ensures dbSort ==> forall i, j :: 0 <= i < j < |events| ==>
              Text.Less(events[i].database, events[j].database)
              || (events[i].database == events[j].database && events[i].timeStamp <= events[j].timeStamp)
  {
    events := Collect(sources, databases);
    if |events| > 1 || dbSort {
      NotAfterIsTotalPreorder(dbSort);
      events := Sorting.Sort(events, NotAfter(dbSort));
      assert Sorting.SortedBy(events, NotAfter(dbSort));
    }
    forall i, j | 0 <= i < j < |events|
      ensures !Less(dbSort, events[j], events[i])
      ensures !dbSort ==> events[i].timeStamp <= events[j].timeStamp
      ensures dbSort ==> Text.Less(events[i].database, events[j].database)
                         || (events[i].database == events[j].database && events[i].timeStamp <= events[j].timeStamp)
    {
      assert NotAfter(dbSort)(events[i], events[j]);
      InOrder(dbSort, events[i], events[j]);
    }
  }
}
