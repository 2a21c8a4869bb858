/** The change-classification dispatcher of matchers.go: an ordered table of
    rules, each a predicate over the change description with optional
    resolvers for the numeric values, the icon and the direction, and static
    fallbacks; `Match` applies the first rule whose predicate holds. */
module Matchers {
  import opened Optional
  import Text
  import Numbers
  import Patterns

  /** The direction of a change. `Unset` is Go's empty string, the value of
      a field nobody has written. */
  datatype Direction = Up | Down | NA | Unset

  /** A configuration-change event. The time stamp is a point in time,
      ordered as Go's `time.Time` values are. */
  datatype ConfigEvent = ConfigEvent(
    timeStamp: int,
    database: string,
    change: string,
    icon: string,
    title: string,
    direction: Direction,
    from: int,
    to: int)

  predicate LowerContains(s: string, p: string)
  {
    Text.Contains(Text.Lower(s), p)
  }

  predicate LowerPrefix(s: string, p: string)
  {
    Text.HasPrefix(Text.Lower(s), p)
  }

  /** The values of a memory-limit change in megabytes, or (0, 0) when
      either magnitude does not parse. */
  function MemoryValues(s: string): (int, int)
  {
    match Patterns.FindSize(s)
    case None => (0, 0)
    case Some(c) =>
      match (Numbers.ConvertSize(c.fromNum, c.fromUnit), Numbers.ConvertSize(c.toNum, c.toUnit))
      case (Some(from), Some(to)) => (from, to)
      case _ => (0, 0)
  }

  /** The values of a throughput change in operations per second, or (0, 0)
      when either number does not fit in an `int`. */
  function ThroughputValues(s: string): (int, int)
  {
    match Patterns.FindThroughput(s)
    case None => (0, 0)
    case Some(c) =>
      match (Numbers.Atoi(c.fromOps), Numbers.Atoi(c.toOps))
      case (Some(from), Some(to)) => (from, to)
      case _ => (0, 0)
  }

  /** The rules of the table, named after what they recognise. */
  datatype Rule =
    | Network | Memory | Activation | Rename | Persistence | Clustering
    | Replication | Sync | Alerts | Backups | Modules | ClusterRules
    | Throughput | Eviction | DefaultPassword | VpcPeering | Infrastructure
    | ApiKey | ApiAccess | OssCluster | Other

  /** The table, in the order the rules are tried. */
  const EventMatchers: seq<Rule> := [
    Network, Memory, Activation, Rename, Persistence,
    Clustering, Replication, Sync, Alerts, Backups,
    Modules, ClusterRules, Throughput, Eviction, DefaultPassword,
    VpcPeering, Infrastructure, ApiKey, ApiAccess, OssCluster,
    Other]

  /** The `match` predicate of each rule. */
  predicate Matches(r: Rule, s: string)
  {
    match r
    case Network => Patterns.SubnetMatches(s)
    case Memory => Patterns.SizeMatches(s)
    case Activation => s == "DB activated" || s == "DB deleted"
    case Rename => LowerPrefix(s, "db name changed")
    case Persistence => LowerContains(s, "persistence")
    case Clustering => Text.Contains(s, "Cluster enabled")
    case Replication => LowerContains(s, "replication policy")
    case Sync => LowerContains(s, "sync source")
    case Alerts =>
      || LowerContains(s, "sync lag is changed")
      || LowerContains(s, "connections limit is changed")
      || LowerContains(s, "alert is changed")
    case Backups => LowerPrefix(s, "backup")
    case Modules => LowerPrefix(s, "module")
    case ClusterRules => Text.Contains(s, "Cluster rule")
    case Throughput => Patterns.ThroughputMatches(s)
    case Eviction => LowerPrefix(s, "eviction policy changed")
    case DefaultPassword => LowerPrefix(s, "default redis user")
    case VpcPeering => LowerPrefix(s, "vpc peering")
    case Infrastructure => LowerContains(s, "added infrastructure")
    case ApiKey => LowerContains(s, "api secret key")
    case ApiAccess => LowerContains(s, "api access")
    case OssCluster => LowerContains(s, "oss cluster")
    case Other => true
  }

  /** The `values` resolver, for the two rules that have one. */
  function Values(r: Rule, s: string): Option<(int, int)>
  {
    match r
    case Memory => Some(MemoryValues(s))
    case Throughput => Some(ThroughputValues(s))
    case _ => None
  }

  /** The static `Icon` of each rule. */
  function FallbackIcon(r: Rule): string
  {
    match r
    case Network => "sign-intersection-side"
    case Memory => "memory"
    case Activation => "database-fill"
    case Rename => "database-fill-check"
    case Persistence => "shield-exclamation"
    case Clustering => "hdd-rack-fill"
    case Replication => "share-fill"
    case Sync => "symmetry-horizontal"
    case Alerts => "envelope"
    case Backups => "cloud-download"
    case Modules => "code-square"
    case ClusterRules => "regex"
    case Throughput => "speedometer"
    case Eviction => "door-open"
    case DefaultPassword => "lock-fill"
    case VpcPeering => "link-45deg"
    case Infrastructure => "cloud-plus"
    case ApiKey => "key"
    case ApiAccess => "key-fill"
    case OssCluster => "boxes"
    case Other => "info-circle-fill"
  }

  /** The `icon` resolver; only the activation rule has one. */
  function IconResolver(r: Rule, s: string): Option<string>
  {
    match r
    case Activation => Some(if s == "DB activated" then "database-fill-check" else "database-fill-slash")
    case _ => None
  }

  /** The icon a rule gives: its resolver's when it has one, its static
      `Icon` otherwise. */
  function Icon(r: Rule, s: string): string
  {
    match IconResolver(r, s)
    case Some(icon) => icon
    case None => FallbackIcon(r)
  }

  /** The `Title` of each rule. */
  function Title(r: Rule): string
  {
    match r
    case Network => "Network Change"
    case Memory => "Memory Limit Change"
    case Activation => "Database Activation/Deletions"
    case Rename => "Database Change"
    case Persistence => "Persistence Change"
    case Clustering => "Clustering enabled"
    case Replication => "Replication Change"
    case Sync => "Sync Change"
    case Alerts => "Alerts"
    case Backups => "Backups"
    case Modules => "Modules"
    case ClusterRules => "Cluster Rules"
    case Throughput => "Throughput Change"
    case Eviction => "Eviction"
    case DefaultPassword => "Default Password Change"
    case VpcPeering => "VPC Peering"
    case Infrastructure => "Infrastructure"
    case ApiKey => "API Key"
    case ApiAccess => "API Access"
    case OssCluster => "OSS Cluster API"
    case Other => "Other Change"
  }

  /** The static `Direction` of each rule. The rules that have a direction
      resolver leave it unset. */
  function FallbackDirection(r: Rule): Direction
  {
    match r
    case Rename => NA
    case Clustering => Up
    case Eviction => NA
    case DefaultPassword => NA
    case OssCluster => Up
    case _ => Unset
  }

  /** The `direction` resolver, for the rules that have one. It sees the
      event as the `values` resolver left it. */
  function DirectionResolver(r: Rule, e: ConfigEvent): Option<Direction>
  {
    match r
    case Network => Some(if Text.Contains(e.change, "deleted") then Down else Up)
    case Memory => Some(if e.to > e.from then Up else Down)
    case Activation => Some(if e.change == "DB activated" then Up else Down)
    case Persistence => Some(if LowerContains(e.change, "disabled") then Down else Up)
    case Replication => Some(if LowerContains(e.change, "to enabled") then Up else Down)
    case Sync => Some(if LowerContains(e.change, "added") then Up else Down)
    case Alerts => Some(if LowerContains(e.change, "active - true") then Up else Down)
    case Backups =>
      Some(if LowerContains(e.change, "enabled") then Up
           else if LowerContains(e.change, "disabled") then Down
           else NA)
    case Modules => Some(if LowerContains(e.change, "loaded") then Up else NA)
    case ClusterRules => Some(if Text.Contains(e.change, "added") then Up else Down)
    case Throughput => Some(if e.to > e.from then Up else if e.from > e.to then Down else NA)
    case VpcPeering =>
      Some(if LowerContains(e.change, "delete") then Down
           else if LowerContains(e.change, "initiated") then Up
           else NA)
    case Infrastructure => Some(Up)
    case ApiKey => Some(if LowerContains(e.change, "assigned") then Up else Down)
    case ApiAccess => Some(if LowerContains(e.change, "enabled") then Up else Down)
    case Other => Some(NA)
    case _ => None
  }

  /** The direction a rule gives: its resolver's when it has one, its static
      `Direction` otherwise. Every rule has one or the other, so a
      classified event always has a direction. */
  function DirectionOf(r: Rule, e: ConfigEvent): (d: Direction)
    ensures d != Unset
  {
    match DirectionResolver(r, e)
    case Some(d) => d
    case None => FallbackDirection(r)
  }

  /** What one matching rule does to the event: the values first, then the
      icon, then the direction (which therefore sees the new values), then
      the title. */
  function Apply(r: Rule, e: ConfigEvent): ConfigEvent
  {
    var values := match Values(r, e.change) case Some(v) => v case None => (e.from, e.to);
    var valued := e.(from := values.0, to := values.1);
    ConfigEvent(e.timeStamp, e.database, e.change, Icon(r, e.change), Title(r), DirectionOf(r, valued), values.0, values.1)
  }

  /** The position of the first rule in `rules` whose predicate holds. */
  function FirstMatch(rules: seq<Rule>, s: string): (r: Option<nat>)
    ensures r.Some? ==> r.value < |rules| && Matches(rules[r.value], s)
    ensures r.Some? ==> forall j :: 0 <= j < r.value ==> !Matches(rules[j], s)
    ensures r.None? ==> forall j :: 0 <= j < |rules| ==> !Matches(rules[j], s)
    decreases |rules|
  {
    if |rules| == 0 then None
    else if Matches(rules[0], s) then Some(0)
    else
      match FirstMatch(rules[1..], s)
      case None => None
      case Some(i) => Some(i + 1)
  }

  /** The scan of `Match` over any table: the first rule that matches is
      applied and the scan stops; when none matches the event is returned
      as it came. */
  function MatchIn(rules: seq<Rule>, e: ConfigEvent): ConfigEvent
    decreases |rules|
  {
    if |rules| == 0 then e
    else if Matches(rules[0], e.change) then Apply(rules[0], e)
    else MatchIn(rules[1..], e)
  }

  /** `Match`. */
  function Match(e: ConfigEvent): ConfigEvent
  {
    MatchIn(EventMatchers, e)
  }

  /** The event record of the log library, before classification. */
  datatype LogEvent = LogEvent(timeStamp: int, database: string, change: string)

  /** The zero-valued event Go builds before classifying a log event. */
  function Fresh(l: LogEvent): ConfigEvent
  {
    ConfigEvent(l.timeStamp, l.database, l.change, "", "", Unset, 0, 0)
  }

  /** `ConfigEventFromLogEvent`: a fresh event, classified. It is the rule
      `Classify` picks applied to the fresh event: that rule's title and
      icon, a direction, and the rule's values or else zeros. */
  function ConfigEventFromLogEvent(l: LogEvent): (r: ConfigEvent)
    ensures r == Apply(Classify(l.change), Fresh(l))
    ensures r.timeStamp == l.timeStamp && r.database == l.database && r.change == l.change
    ensures r.title == Title(Classify(l.change)) && r.icon == Icon(Classify(l.change), l.change)
    ensures r.direction != Unset
    ensures (r.from, r.to) == match Values(Classify(l.change), l.change) case Some(v) => v case None => (0, 0)
  {
    ClassifiedByFirstRule(Fresh(l));
    Match(Fresh(l))
  }

  /** The per-database record of the log library: its name and its events.
      The creation and deletion times, the initial sizes and the status
      record it also carries are not part of this model. */
  datatype DBConfigInfo = DBConfigInfo(database: string, events: seq<LogEvent>)

  /** The per-database record of the report. */
  datatype DBInfo = DBInfo(database: string, events: seq<ConfigEvent>)

  /** `DBInfoFromRCutils`: the same database, with each log event turned
      into a classified event, in the same order. */
  function DBInfoFromRCutils(d: DBConfigInfo): (r: DBInfo)
    ensures r.database == d.database && |r.events| == |d.events|
    ensures forall n :: 0 <= n < |d.events| ==>
              && r.events[n].timeStamp == d.events[n].timeStamp
              && r.events[n].database == d.events[n].database
              && r.events[n].change == d.events[n].change
              && r.events[n].direction != Unset
              && r.events[n].title == Title(Classify(d.events[n].change))
              && r.events[n].icon == Icon(Classify(d.events[n].change), d.events[n].change)
    ensures forall n :: 0 <= n < |d.events| ==> r.events[n] == Apply(Classify(d.events[n].change), Fresh(d.events[n]))
  {
    DBInfo(d.database, seq(|d.events|, n requires 0 <= n < |d.events| => ConfigEventFromLogEvent(d.events[n])))
  }

  /** First match wins, for any table. */
  lemma {:induction false} FirstMatchWins(rules: seq<Rule>, e: ConfigEvent)
    ensures MatchIn(rules, e) == match FirstMatch(rules, e.change)
                                 case Some(i) => Apply(rules[i], e)
                                 case None => e
    decreases |rules|
  {
    if |rules| > 0 && !Matches(rules[0], e.change) {
      FirstMatchWins(rules[1..], e);
    }
  }

  /** The catch-all is the last rule, so the table classifies everything. */
  lemma TableIsTotal(s: string)
    ensures FirstMatch(EventMatchers, s).Some?
  {
    assert Matches(EventMatchers[20], s);
  }

  /** The rule that classifies a description. */
  function RuleIndex(s: string): (i: nat)
    ensures i < |EventMatchers| && Matches(EventMatchers[i], s)
    ensures forall j :: 0 <= j < i ==> !Matches(EventMatchers[j], s)
  {
    TableIsTotal(s);
    FirstMatch(EventMatchers, s).value
  }

  /** The rule that classifies a description. */
  function Classify(s: string): Rule
  {
    EventMatchers[RuleIndex(s)]
  }

  /** `Match` is the application of the rule `Classify` picks; the event's
      time stamp, database and description are left alone, and every
      classified event has a direction. */
  lemma ClassifiedByFirstRule(e: ConfigEvent)
    ensures Match(e) == Apply(Classify(e.change), e)
    ensures Match(e).timeStamp == e.timeStamp && Match(e).database == e.database && Match(e).change == e.change
    ensures Match(e).title == Title(Classify(e.change))
    ensures Match(e).direction != Unset
  {
    FirstMatchWins(EventMatchers, e);
    TableIsTotal(e.change);
  }

  /** The rule `RuleIndex` picks is pinned down by being the first match. */
  lemma RuleIndexIs(s: string, i: nat)
    requires i < |EventMatchers| && Matches(EventMatchers[i], s)
    requires forall j :: 0 <= j < i ==> !Matches(EventMatchers[j], s)
    ensures RuleIndex(s) == i
  {
  }

  /** No two rules share a title, so the title names the rule. */
  lemma TitleNamesRule(r: Rule, q: Rule)
    ensures Title(r) == Title(q) <==> r == q
  {
  }

  /** The catch-all sits at the end of the table and nowhere else. */
  lemma OnlyLastIsOther(i: nat)
    requires i < |EventMatchers|
    ensures EventMatchers[i] == Other <==> i == 20
  {
  }

  /** The catch-all: an event is an "Other Change" exactly when none of the
      twenty specific rules recognises its description, and it then gets the
      catch-all's icon and direction and nothing else changes. */
  lemma OtherChange(e: ConfigEvent)
    ensures Match(e).title == "Other Change" <==> forall j :: 0 <= j < 20 ==> !Matches(EventMatchers[j], e.change)
    ensures Match(e).title == "Other Change" ==>
              Match(e) == e.(icon := "info-circle-fill", title := "Other Change", direction := NA)
  {
    ClassifiedByFirstRule(e);
    TitleNamesRule(Classify(e.change), Other);
    OtherWhenNoEarlier(e.change);
    if Classify(e.change) == Other {
      OtherApplied(e);
    }
  }

  /** The catch-all classifies exactly the descriptions no earlier rule
      recognises. */
  lemma OtherWhenNoEarlier(s: string)
    ensures Classify(s) == Other <==> forall j :: 0 <= j < 20 ==> !Matches(EventMatchers[j], s)
  {
    var i := RuleIndex(s);
    OnlyLastIsOther(i);
    if forall j :: 0 <= j < 20 ==> !Matches(EventMatchers[j], s) {
      RuleIndexIs(s, 20);
    }
  }

  /** What the catch-all writes. */
  lemma OtherApplied(e: ConfigEvent)
    requires Classify(e.change) == Other
    ensures Match(e) == e.(icon := "info-circle-fill", title := "Other Change", direction := NA)
  {
    ClassifiedByFirstRule(e);
  }

  /** Only the memory and throughput rules write the values; every other
      rule leaves `From` and `To` as they were. */
  lemma ValuesWrittenByTwoRules(e: ConfigEvent)
    ensures var r := Classify(e.change);
      && (r == Memory ==> (Match(e).from, Match(e).to) == MemoryValues(e.change))
      && (r == Throughput ==> (Match(e).from, Match(e).to) == ThroughputValues(e.change))
      && (r != Memory && r != Throughput ==> Match(e).from == e.from && Match(e).to == e.to)
  {
    ClassifiedByFirstRule(e);
  }

  /** A rule reads the description and the values, nothing else. */
  lemma ApplyReadsDescriptionAndValues(r: Rule, a: ConfigEvent, b: ConfigEvent)
    requires a.change == b.change && a.from == b.from && a.to == b.to
    ensures Apply(r, a).icon == Apply(r, b).icon && Apply(r, a).title == Apply(r, b).title
    ensures Apply(r, a).direction == Apply(r, b).direction
    ensures Apply(r, a).from == Apply(r, b).from && Apply(r, a).to == Apply(r, b).to
  {
    var v := match Values(r, a.change) case Some(v) => v case None => (a.from, a.to);
    assert a.(from := v.0, to := v.1).change == b.(from := v.0, to := v.1).change;
  }

  /** A fresh event's classification depends on its description alone. */
  lemma ClassificationReadsOnlyDescription(l: LogEvent, m: LogEvent)
    requires l.change == m.change
    ensures var a, b := ConfigEventFromLogEvent(l), ConfigEventFromLogEvent(m);
      a.icon == b.icon && a.title == b.title && a.direction == b.direction && a.from == b.from && a.to == b.to
  {
    var a := ConfigEvent(l.timeStamp, l.database, l.change, "", "", Unset, 0, 0);
    var b := ConfigEvent(m.timeStamp, m.database, m.change, "", "", Unset, 0, 0);
    ClassifiedByFirstRule(a);
    ClassifiedByFirstRule(b);
    ApplyReadsDescriptionAndValues(Classify(l.change), a, b);
  }

  /** The persistence rule comes before the backup rule, so a backup
      description that mentions persistence is a persistence change. */
  lemma PersistenceBeforeBackups(s: string)
    requires LowerContains(s, "persistence")
    ensures RuleIndex(s) <= 4
    ensures Classify(s) != Backups
  {
    assert Matches(EventMatchers[4], s);
    BackupsAfterFive(RuleIndex(s));
  }

  /** The backup rule is not among the first five. */
  lemma BackupsAfterFive(i: nat)
    requires i <= 4
    ensures EventMatchers[i] != Backups
  {
  }

  /** A description the size pattern recognises is a memory change unless
      it is also a subnet change. */
  lemma SizeMeansMemory(s: string)
    requires Patterns.SizeMatches(s) && !Patterns.SubnetMatches(s)
    ensures Classify(s) == Memory
  {
    RuleIndexIs(s, 1);
  }

  /** A memory change goes up exactly when the new limit is above the old
      one, and down otherwise; the values are the two converted sizes. */
  lemma MemoryDirection(e: ConfigEvent)
    requires Classify(e.change) == Memory
    ensures (Match(e).from, Match(e).to) == MemoryValues(e.change)
    ensures Match(e).direction == Up <==> MemoryValues(e.change).1 > MemoryValues(e.change).0
    ensures Match(e).direction == Down <==> MemoryValues(e.change).1 <= MemoryValues(e.change).0
    ensures Match(e).icon == "memory" && Match(e).title == "Memory Limit Change"
  {
    ClassifiedByFirstRule(e);
  }

  /** A size that does not parse reads as (0, 0): no change of limit. */
  lemma MemoryUnparsable(s: string)
    requires Patterns.FindSize(s).Some?
    requires var c := Patterns.FindSize(s).value;
      Numbers.ConvertSize(c.fromNum, c.fromUnit).None? || Numbers.ConvertSize(c.toNum, c.toUnit).None?
    ensures MemoryValues(s) == (0, 0)
  {
  }

  /** A throughput change goes up, down or nowhere as the new figure
      compares with the old one. */
  lemma ThroughputDirection(e: ConfigEvent)
    requires Classify(e.change) == Throughput
    ensures (Match(e).from, Match(e).to) == ThroughputValues(e.change)
    ensures Match(e).direction == Up <==> ThroughputValues(e.change).1 > ThroughputValues(e.change).0
    ensures Match(e).direction == Down <==> ThroughputValues(e.change).1 < ThroughputValues(e.change).0
    ensures Match(e).direction == NA <==> ThroughputValues(e.change).1 == ThroughputValues(e.change).0
    ensures Match(e).icon == "speedometer" && Match(e).title == "Throughput Change"
  {
    ClassifiedByFirstRule(e);
  }

  /** A figure too large for an `int` reads as (0, 0), a change to nowhere. */
  lemma ThroughputUnparsable(s: string)
    requires Patterns.FindThroughput(s).Some?
    requires var c := Patterns.FindThroughput(s).value;
      Numbers.Atoi(c.fromOps).None? || Numbers.Atoi(c.toOps).None?
    ensures ThroughputValues(s) == (0, 0)
  {
  }

  /** The backup rule's three directions: up when the text says "enabled",
      otherwise down when it says "disabled", otherwise not applicable. */
  lemma BackupDirection(e: ConfigEvent)
    requires Classify(e.change) == Backups
    ensures Match(e).direction == Up <==> LowerContains(e.change, "enabled")
    ensures Match(e).direction == Down <==> !LowerContains(e.change, "enabled") && LowerContains(e.change, "disabled")
    ensures Match(e).direction == NA <==> !LowerContains(e.change, "enabled") && !LowerContains(e.change, "disabled")
    ensures Match(e).icon == "cloud-download" && Match(e).title == "Backups"
  {
    ClassifiedByFirstRule(e);
  }

  // ---- Classifications of the descriptions the control plane writes

  /** A numeral holds no character but digits. */
  lemma DigitsOnly(x: string, c: char)
    requires Numbers.AllDigits(x) && !Numbers.IsDigit(c)
    ensures c !in x
  {
  }

  lemma DigitsInClass(x: string)
    requires Numbers.AllDigits(x)
    ensures Patterns.AllInClass(x, Patterns.NumeralChars) && Patterns.AllInClass(x, Patterns.Digits)
  {
  }

  /** The phrase of a memory change in gigabytes. */
  function GigabyteText(a: nat, b: nat): string
  {
    Patterns.SizeText(Numbers.Numeral(a), "GB", Numbers.Numeral(b), "GB")
  }

  lemma GigabyteTextFound(a: nat, b: nat)
    ensures Patterns.FindSize(GigabyteText(a, b)) == Some(Patterns.SizeCapture(Numbers.Numeral(a), "GB", Numbers.Numeral(b), "GB"))
  {
    DigitsInClass(Numbers.Numeral(a));
    DigitsInClass(Numbers.Numeral(b));
    Patterns.SizeTextFound(Numbers.Numeral(a), "GB", Numbers.Numeral(b), "GB");
  }

  lemma GigabyteTextNotSubnet(a: nat, b: nat)
    ensures !Patterns.SubnetMatches(GigabyteText(a, b))
  {
    var s := GigabyteText(a, b);
    var na, nb := Numbers.Numeral(a), Numbers.Numeral(b);
    DigitsOnly(na, 'u');
    DigitsOnly(na, 'U');
    DigitsOnly(nb, 'u');
    DigitsOnly(nb, 'U');
    Patterns.LetterFoldFree(s, 'u');
    Patterns.SubnetNeedsChar(s, 2);
  }

  /** "Memory Limit changed from <a> GB to <b> GB" is a memory change from
      1000 a to 1000 b megabytes, up exactly when the limit grew. */
  lemma MemoryInGigabytes(e: ConfigEvent, a: nat, b: nat)
    requires e.change == GigabyteText(a, b)
    ensures Match(e).title == "Memory Limit Change" && Match(e).icon == "memory"
    ensures Match(e).from == 1000 * a && Match(e).to == 1000 * b
    ensures Match(e).direction == (if b > a then Up else Down)
  {
    GigabyteIsMemory(a, b);
    GigabyteValues(a, b);
    MemoryDirection(e);
  }

  lemma GigabyteIsMemory(a: nat, b: nat)
    ensures Classify(GigabyteText(a, b)) == Memory
  {
    GigabyteTextFound(a, b);
    Patterns.SizeFound(GigabyteText(a, b));
    GigabyteTextNotSubnet(a, b);
    SizeMeansMemory(GigabyteText(a, b));
  }

  lemma GigabyteValues(a: nat, b: nat)
    ensures MemoryValues(GigabyteText(a, b)) == (1000 * a, 1000 * b)
  {
    GigabyteTextFound(a, b);
    Numbers.ConvertGigabytes(a);
    Numbers.ConvertGigabytes(b);
  }

  /** The phrase of a throughput change in operations per second. */
  function OpsText(a: nat, b: nat): string
  {
    Patterns.ThroughputText(Numbers.Numeral(a), Numbers.Numeral(b))
  }

  /** "Database Throughput was changed from <a> ops/sec to <b> ops/sec" is a
      throughput change. While both rates fit in an `int` it goes from a to
      b, up, down or NA as the rate rose, fell or stayed; otherwise the
      values are (0, 0) and the direction is NA. */
  lemma ThroughputInNumbers(e: ConfigEvent, a: nat, b: nat)
    requires e.change == OpsText(a, b)
    ensures Match(e).title == "Throughput Change" && Match(e).icon == "speedometer"
    ensures a <= Numbers.MaxInt && b <= Numbers.MaxInt ==>
              && Match(e).from == a && Match(e).to == b
              && Match(e).direction == (if b > a then Up else if a > b then Down else NA)
    ensures !(a <= Numbers.MaxInt && b <= Numbers.MaxInt) ==>
              Match(e).from == 0 && Match(e).to == 0 && Match(e).direction == NA
  {
    OpsIsThroughput(a, b);
    OpsValues(a, b);
    ThroughputDirection(e);
  }

  lemma OpsIsThroughput(a: nat, b: nat)
    ensures Classify(OpsText(a, b)) == Throughput
  {
    var s := OpsText(a, b);
    OpsTextFound(a, b);
    Patterns.ThroughputFound(s);
    OpsTextLetterFree(a, b);
    OpsStart(a, b);
    OpsClassified(s);
  }

  lemma OpsClassified(s: string)
    requires Patterns.ThroughputMatches(s) && OpsLetterFree(s)
    requires |s| > 2 && s[1] == 'a' && Text.Lower(s)[0] == 'd' && Text.Lower(s)[1] == 'a'
    ensures Classify(s) == Throughput
  {
    OpsMissesEarlierRules(s);
    RuleIndexIs(s, 12);
  }

  /** A text that lacks the letters the throughput phrase lacks and starts
      as it does escapes the twelve rules before the throughput rule. */
  lemma OpsMissesEarlierRules(s: string)
    requires OpsLetterFree(s)
    requires |s| > 2 && s[1] == 'a' && Text.Lower(s)[0] == 'd' && Text.Lower(s)[1] == 'a'
    ensures forall j :: 0 <= j < 12 ==> !Matches(EventMatchers[j], s)
  {
    OpsLacks(s);
    OpsNoPattern(s);
    OpsNoStore(s);
    OpsNoAlert(s);
    OpsClusterPhrases(s);
    OpsNoPrefix(s);
  }

  lemma OpsTextFound(a: nat, b: nat)
    ensures Patterns.FindThroughput(OpsText(a, b)) == Some(Patterns.ThroughputCapture(Numbers.Numeral(a), Numbers.Numeral(b)))
  {
    DigitsInClass(Numbers.Numeral(a));
    DigitsInClass(Numbers.Numeral(b));
    Patterns.ThroughputTextFound(Numbers.Numeral(a), Numbers.Numeral(b));
  }

  lemma OpsValues(a: nat, b: nat)
    ensures a <= Numbers.MaxInt && b <= Numbers.MaxInt ==> ThroughputValues(OpsText(a, b)) == (a, b)
    ensures !(a <= Numbers.MaxInt && b <= Numbers.MaxInt) ==> ThroughputValues(OpsText(a, b)) == (0, 0)
  {
    OpsTextFound(a, b);
    if a <= Numbers.MaxInt && b <= Numbers.MaxInt {
      Numbers.AtoiNumeral(a);
      Numbers.AtoiNumeral(b);
    }
  }

  /** The letters the throughput phrase lacks: i, l and y in either case,
      the dotted capital I, and a capital C. */
  const OpsLetters: string := "iIlLyYC\U{0130}"

  predicate OpsLetterFree(x: string)
  {
    forall k :: 0 <= k < |x| ==> x[k] !in OpsLetters
  }

  lemma OpsTextLetterFree(a: nat, b: nat)
    ensures OpsLetterFree(OpsText(a, b))
  {
    var na, nb := Numbers.Numeral(a), Numbers.Numeral(b);
    OpsHeadLetterFree();
    OpsTailLetterFree();
    var head := Patterns.ThroughputHead + na;
    OpsLetterFreeAppend(Patterns.ThroughputHead, na);
    OpsLetterFreeAppend(head, Patterns.ThroughputMiddle);
    OpsLetterFreeAppend(head + Patterns.ThroughputMiddle, nb);
    OpsLetterFreeAppend(head + Patterns.ThroughputMiddle + nb, Patterns.ThroughputTail);
  }

  lemma OpsHeadLetterFree()
    ensures OpsLetterFree(Patterns.ThroughputHead)
  {
  }

  lemma OpsTailLetterFree()
    ensures OpsLetterFree(Patterns.ThroughputMiddle) && OpsLetterFree(Patterns.ThroughputTail)
  {
  }

  lemma OpsLetterFreeAppend(a: string, b: string)
    requires OpsLetterFree(a) && (OpsLetterFree(b) || Numbers.AllDigits(b))
    ensures OpsLetterFree(a + b)
  {
    forall k | 0 <= k < |a + b|
      ensures (a + b)[k] !in OpsLetters
    {
      if k < |a| {
        assert (a + b)[k] == a[k];
      } else {
        assert (a + b)[k] == b[k - |a|];
      }
    }
  }

  lemma OpsLacks(x: string)
    requires OpsLetterFree(x)
    ensures && 'i' !in x && 'I' !in x && '\U{0130}' !in x
            && 'l' !in x && 'L' !in x && 'y' !in x && 'Y' !in x && 'C' !in x
  {
    forall k | 0 <= k < |x|
      ensures && x[k] != 'i' && x[k] != 'I' && x[k] != '\U{0130}'
              && x[k] != 'l' && x[k] != 'L' && x[k] != 'y' && x[k] != 'Y' && x[k] != 'C'
    {
      assert x[k] !in OpsLetters;
    }
  }

  /** Without i the subnet pattern cannot match, without y the size
      pattern cannot. */
  lemma OpsNoPattern(s: string)
    requires 'i' !in s && 'I' !in s && 'y' !in s && 'Y' !in s
    ensures !Matches(Network, s) && !Matches(Memory, s)
  {
    Patterns.LetterFoldFree(s, 'i');
    Patterns.SubnetNeedsChar(s, 7);
    Patterns.LetterFoldFree(s, 'y');
    Patterns.SizeNeedsChar(s, 5);
  }

  /** Neither the persistence nor the replication phrase occurs in a text
      without i. */
  lemma OpsNoStore(s: string)
    requires 'i' !in s && 'I' !in s && '\U{0130}' !in s
    ensures !Matches(Persistence, s) && !Matches(Replication, s)
  {
    Text.LowerMissingChar(s, 'i');
    Text.MissingCharNotContained(Text.Lower(s), "persistence", 4);
    Text.MissingCharNotContained(Text.Lower(s), "replication policy", 4);
  }

  /** Neither the sync phrase nor any alert phrase occurs in a text without
      i, l and y. */
  lemma OpsNoAlert(s: string)
    requires 'i' !in s && 'I' !in s && '\U{0130}' !in s && 'l' !in s && 'L' !in s && 'y' !in s && 'Y' !in s
    ensures !Matches(Sync, s) && !Matches(Alerts, s)
  {
    Text.LowerMissingChar(s, 'i');
    Text.LowerMissingChar(s, 'y');
    Text.LowerMissingChar(s, 'l');
    var t := Text.Lower(s);
    Text.MissingCharNotContained(t, "sync source", 1);
    Text.MissingCharNotContained(t, "sync lag is changed", 1);
    Text.MissingCharNotContained(t, "connections limit is changed", 7);
    Text.MissingCharNotContained(t, "alert is changed", 1);
  }

  /** Both phrases about clusters need a capital C. */
  lemma OpsClusterPhrases(s: string)
    requires 'C' !in s
    ensures !Matches(Clustering, s) && !Matches(ClusterRules, s)
  {
    Text.MissingCharNotContained(s, "Cluster enabled", 0);
    Text.MissingCharNotContained(s, "Cluster rule", 0);
  }

  /** The throughput phrase starts "Da", lowered "da". */
  lemma OpsStart(a: nat, b: nat)
    ensures var s := OpsText(a, b);
      |s| > 2 && s[1] == 'a' && Text.Lower(s)[0] == 'd' && Text.Lower(s)[1] == 'a'
  {
    var s := OpsText(a, b);
    assert s[..|Patterns.ThroughputHead|] == Patterns.ThroughputHead;
    assert s[0] == 'D' && s[1] == 'a';
  }

  /** A text starting "da" once lowered, with a lower-case second letter,
      is neither activation text and has none of the prefixes the rename,
      backup and module rules look for. */
  lemma OpsNoPrefix(s: string)
    requires |s| > 2 && s[1] == 'a' && Text.Lower(s)[0] == 'd' && Text.Lower(s)[1] == 'a'
    ensures !Matches(Activation, s) && !Matches(Rename, s) && !Matches(Backups, s) && !Matches(Modules, s)
  {
    NotLowerPrefix(s, "db name changed", 1);
    NotLowerPrefix(s, "backup", 0);
    NotLowerPrefix(s, "module", 0);
  }

  /** A text whose lowered k-th character differs from a phrase's is not
      prefixed by the phrase. */
  lemma NotLowerPrefix(s: string, p: string, k: nat)
    requires k < |p| && k < |s| && Text.Lower(s)[k] != p[k]
    ensures !LowerPrefix(s, p)
  {
    if |p| <= |s| {
      assert Text.Lower(s)[..|p|][k] != p[k];
    }
  }

  /** The subnet pattern needs an `o` and the size pattern an `m`. */
  lemma NoPatternWithoutOM(s: string)
    requires 'o' !in s && 'O' !in s && 'm' !in s && 'M' !in s
    ensures !Matches(Network, s) && !Matches(Memory, s)
  {
    Patterns.LetterFoldFree(s, 'o');
    Patterns.SubnetNeedsChar(s, 1);
    Patterns.LetterFoldFree(s, 'm');
    Patterns.SizeNeedsChar(s, 0);
  }

  /** The exact texts "DB activated" and "DB deleted" are database
      activations, up with a check icon and down with a slash icon. */
  lemma Activations(e: ConfigEvent)
    requires e.change == "DB activated" || e.change == "DB deleted"
    ensures Match(e).title == "Database Activation/Deletions"
    ensures e.change == "DB activated" ==> Match(e).direction == Up && Match(e).icon == "database-fill-check"
    ensures e.change == "DB deleted" ==> Match(e).direction == Down && Match(e).icon == "database-fill-slash"
  {
    ActivationTexts(e.change);
    ClassifiedByFirstRule(e);
  }

  lemma ActivationTexts(s: string)
    requires s == "DB activated" || s == "DB deleted"
    ensures Classify(s) == Activation
  {
    ActivationLetters(s);
    NoPatternWithoutOM(s);
    RuleIndexIs(s, 2);
  }

  lemma ActivationLetters(s: string)
    requires s == "DB activated" || s == "DB deleted"
    ensures 'o' !in s && 'O' !in s && 'm' !in s && 'M' !in s
  {
  }

  /** The persistence and replication phrases need an `r`. */
  lemma NoPhraseWithoutR(s: string)
    requires 'r' !in s && 'R' !in s
    ensures !Matches(Persistence, s) && !Matches(Replication, s)
  {
    Text.LowerMissingChar(s, 'r');
    Text.MissingCharNotContained(Text.Lower(s), "persistence", 2);
    Text.MissingCharNotContained(Text.Lower(s), "replication policy", 0);
  }

  /** The sync phrase needs a `y`, the clustering phrase a capital C. */
  lemma NoPhraseWithoutYC(s: string)
    requires 'y' !in s && 'Y' !in s && 'C' !in s
    ensures !Matches(Sync, s) && !Matches(Clustering, s)
  {
    Text.LowerMissingChar(s, 'y');
    Text.MissingCharNotContained(Text.Lower(s), "sync source", 1);
    Text.MissingCharNotContained(s, "Cluster enabled", 0);
  }

  /** The three alert phrases need a `y`, an `o` and an `r`. */
  lemma NoAlertWithoutYOR(s: string)
    requires 'r' !in s && 'R' !in s && 'y' !in s && 'Y' !in s && 'o' !in s && 'O' !in s
    ensures !Matches(Alerts, s)
  {
    Text.LowerMissingChar(s, 'r');
    Text.LowerMissingChar(s, 'y');
    Text.LowerMissingChar(s, 'o');
    Text.MissingCharNotContained(Text.Lower(s), "sync lag is changed", 1);
    Text.MissingCharNotContained(Text.Lower(s), "connections limit is changed", 1);
    Text.MissingCharNotContained(Text.Lower(s), "alert is changed", 3);
  }

  /** A description that starts with "backup" and has none of the letters
      o, m, r, y (in either case) nor a capital C falls to the backup rule. */
  lemma BackupPhrase(s: string)
    requires Text.HasPrefix(s, "backup")
    requires 'o' !in s && 'O' !in s && 'm' !in s && 'M' !in s
    requires 'r' !in s && 'R' !in s && 'y' !in s && 'Y' !in s && 'C' !in s
    ensures Classify(s) == Backups
  {
    NoPatternWithoutOM(s);
    NoPhraseWithoutR(s);
    NoPhraseWithoutYC(s);
    NoAlertWithoutYOR(s);
    assert s[0] == 'b';
    assert Text.Lower(s)[0] == 'b';
    assert Text.Lower(s)[..6] == "backup";
    RuleIndexIs(s, 9);
  }

  /** "backup disabled" is a backup change that goes down: "disabled" does
      not contain "enabled", so the second branch of the backup resolver is
      reachable. */
  lemma BackupDisabled(e: ConfigEvent)
    requires e.change == "backup disabled"
    ensures Match(e).title == "Backups" && Match(e).direction == Down
  {
    BackupDisabledText(e.change);
    BackupDirection(e);
  }

  /** "backup disabled" is classified as a backup change, and it names
      disabling, not enabling. */
  lemma BackupDisabledText(s: string)
    requires s == "backup disabled"
    ensures Classify(s) == Backups
    ensures !LowerContains(s, "enabled") && LowerContains(s, "disabled")
  {
    BackupDisabledLetters(s);
    BackupPhrase(s);
    BackupDisabledLower(s);
    Text.LowerMissingChar(s, 'n');
    Text.MissingCharNotContained(Text.Lower(s), "enabled", 1);
  }

  /** The letters "backup disabled" lacks. Checking a character against a
      literal costs the prover more the more characters are asked about at
      once, so the check is shared out among this lemma, the next and the
      lowering lemma after them. */
  lemma BackupDisabledLetters(s: string)
    requires s == "backup disabled"
    ensures Text.HasPrefix(s, "backup")
    ensures 'o' !in s && 'O' !in s && 'm' !in s && 'M' !in s
    ensures 'r' !in s && 'R' !in s && 'y' !in s && 'Y' !in s && 'C' !in s
    ensures 'n' !in s && 'N' !in s
  {
    BackupDisabledVowels(s);
  }

  lemma BackupDisabledVowels(s: string)
    requires s == "backup disabled"
    ensures 'o' !in s && 'O' !in s && 'y' !in s && 'Y' !in s
  {
  }

  lemma BackupDisabledLower(s: string)
    requires s == "backup disabled"
    ensures Text.Lower(s) == s && Text.Contains(s, "disabled")
  {
    Text.LowerOfLowerCase(s);
    assert Text.OccursAt(s, "disabled", 7);
  }

  /** "backup enabled" is a backup change that goes up. */
  lemma BackupEnabled(e: ConfigEvent)
    requires e.change == "backup enabled"
    ensures Match(e).title == "Backups" && Match(e).direction == Up
  {
    BackupEnabledText(e.change);
    BackupDirection(e);
  }

  /** "backup enabled" is classified as a backup change that names enabling. */
  lemma BackupEnabledText(s: string)
    requires s == "backup enabled"
    ensures Classify(s) == Backups && LowerContains(s, "enabled")
  {
    BackupEnabledLetters(s);
    BackupPhrase(s);
    BackupEnabledLower(s);
  }

  lemma BackupEnabledLetters(s: string)
    requires s == "backup enabled"
    ensures Text.HasPrefix(s, "backup")
    ensures 'o' !in s && 'O' !in s && 'm' !in s && 'M' !in s
    ensures 'r' !in s && 'R' !in s && 'y' !in s && 'Y' !in s && 'C' !in s
  {
  }

  lemma BackupEnabledLower(s: string)
    requires s == "backup enabled"
    ensures Text.Lower(s) == s && Text.Contains(s, "enabled")
  {
    Text.LowerOfLowerCase(s);
    assert Text.OccursAt(s, "enabled", 7);
  }
}
