# dblogs change classifier, timeline and lister, in Dafny

dblogs turns the audit log of a managed database service into a report. It
reads each configuration-change event and classifies its free-text
description against an ordered table of 21 rules. The first rule whose
predicate holds gives the event a title and an icon, and a direction: up,
down or "NA". For memory-limit and throughput changes the rule also extracts
the old and new values. The classified events are then grouped into a
timeline keyed by day (or by minute), per database. The report also carries
a legend of the rule table, laid out in rows, and the sorted list of
database names. A separate small program in the same repository lists the
configuration changes of selected databases, sorted by time, or by database
and then by time.

The model has eight modules:

- `Optional` — the option type.
- `Text` — Go's `strings.ToLower`, `strings.Contains`, `strings.HasPrefix`
  and the byte order of strings.
- `Sorting` — an insertion sort with the contract of Go's `sort.Slice` and
  `slices.Sort`: a permutation, in order.
- `Numbers` — `strconv.ParseFloat` on plain decimals, `strconv.Atoi` for a
  64-bit `int`, and `convertSize`.
- `Patterns` — hand-written parsers for the three case-insensitive regular
  expressions.
- `Matchers` — the event, the rule table and `Match`.
- `Timeline` — `buildTimeline`, `Events`, `legend` and `initDBList`.
- `Lister` — the filter loop and comparator of main.go. It shares no types
  with the other two modules.

Four behaviours of the code are easy to miss:

- The "hourly" bucket format keeps the minutes (`2006-01-02 15:04`), so a
  bucket is a calendar minute. `Timeline.HourlyKeepsMinutes` proves that
  two time stamps a minute or more apart never share an "hourly" bucket,
  and `Timeline.HalfHourApart` that 10:00 and 10:30 of one day share a
  daily bucket but not an "hourly" one.
- A legend row past the last rule is padded with empty slots (Go's nil
  maps), here `None`.
- A memory size that does not parse yields values (0, 0), which the memory
  rule reports as "down". A throughput number that does not parse also
  yields (0, 0), which the throughput rule reports as "NA".
- The backup rule checks for "enabled" before "disabled". "disabled" does
  not contain "enabled", so "backup disabled" is a backup change that goes
  down (`Matchers.BackupDisabled`).

## Model

| member | source | states |
|---|---|---|
| Matchers.FirstMatch | matchers.go:381-383 | the position returned holds a matching rule and no earlier rule matches; when none is returned, no rule matches |
| Matchers.FirstMatchWins | matchers.go:381-403 | scanning any rule table applies exactly the first matching rule and stops; with no match the event comes back unchanged |
| Matchers.TableIsTotal | matchers.go:340-349 | the catch-all makes every description match some rule of the table |
| Matchers.EventMatchers | matchers.go:49-350 | the 21 rules in the order they are tried, ending with the catch-all; `Matchers.RuleIndex` and `Matchers.FirstMatchWins` state that the first matching one is applied |
| Matchers.RuleIndex | matchers.go:49-350 | the rule chosen for a description matches it and no earlier rule of the 21 does |
| Matchers.RuleIndexIs | matchers.go:381-399 | a matching rule with no matching predecessor is the one chosen |
| Matchers.ClassifiedByFirstRule | matchers.go:381-403 | `Match` is the first matching rule applied; time stamp, database and description are untouched; the title is that rule's; a direction is always set |
| Matchers.DirectionOf | matchers.go:392-396 | every rule, through its resolver or its static setting, gives every event a direction; none is left unset |
| Matchers.ApplyReadsDescriptionAndValues | matchers.go:384-397 | applying a rule depends on the description and the current values only |
| Matchers.ClassificationReadsOnlyDescription | matchers.go:372-403 | two events with the same description get the same icon, title and direction and, for value-extracting rules, the same values |
| Matchers.ValuesWrittenByTwoRules | matchers.go:384-386 | From and To are rewritten by the memory and throughput rules only; every other rule leaves them as they were |
| Matchers.TitleNamesRule | matchers.go:49-350 | no two rules share a title, so a title identifies its rule |
| Matchers.OnlyLastIsOther | matchers.go:340-349 | the catch-all is the 21st rule and no other |
| Matchers.OtherWhenNoEarlier | matchers.go:340-349 | the catch-all classifies a description exactly when none of the other twenty rules matches it |
| Matchers.OtherChange | matchers.go:340-349 | an event is an "Other Change" exactly when none of the twenty specific rules matches; it then gets icon "info-circle-fill", direction NA, and nothing else changes |
| Matchers.OtherApplied | matchers.go:340-349 | what the catch-all writes: icon, title and NA, nothing else |
| Matchers.PersistenceBeforeBackups | matchers.go:124-136 | a description containing "persistence" in any case is classified by one of the first five rules, so never as a backup change, even when it starts with "backup" |
| Matchers.BackupsAfterFive | matchers.go:189-204 | the backup rule comes after the first five rules |
| Matchers.SizeMeansMemory | matchers.go:64-67 | a description the size pattern recognises is a memory change unless the subnet pattern also recognises it |
| Matchers.MemoryDirection | matchers.go:64-94 | a memory change carries the two converted sizes; it goes up exactly when the new size is larger and down otherwise; icon "memory" |
| Matchers.MemoryUnparsable | matchers.go:69-81 | when either size does not convert, the values are (0, 0) |
| Matchers.ThroughputDirection | matchers.go:233-263 | a throughput change carries the two numbers; up, down or NA exactly as the new number is larger, smaller or equal |
| Matchers.ThroughputUnparsable | matchers.go:237-249 | when either number does not convert, the values are (0, 0) |
| Matchers.BackupDirection | matchers.go:189-204 | a backup change goes up exactly when it mentions "enabled", down exactly when it mentions "disabled" but not "enabled", NA otherwise |
| Matchers.MemoryInGigabytes | matchers.go:64-94 | "Memory Limit changed from a GB to b GB" is a memory change from 1000·a to 1000·b megabytes, up exactly when b > a |
| Matchers.GigabyteIsMemory | matchers.go:50-67 | that description is classified by the memory rule: the network rule does not match it |
| Matchers.GigabyteValues | matchers.go:68-83 | its values are 1000·a and 1000·b |
| Matchers.GigabyteTextFound | matchers.go:46 | the size pattern reads back the four groups of that description |
| Matchers.GigabyteTextNotSubnet | matchers.go:45 | the subnet pattern does not match it |
| Matchers.Activations | matchers.go:95-115 | "DB activated" is an activation that goes up with the check icon; "DB deleted" goes down with the slash icon |
| Matchers.ActivationTexts | matchers.go:95-98 | those two texts are classified by the third rule |
| Matchers.BackupPhrase | matchers.go:189-192 | a description starting with "backup" and lacking the letters of the earlier rules' phrases is a backup change |
| Matchers.BackupDisabled | matchers.go:189-204 | "backup disabled" is a backup change that goes down |
| Matchers.BackupDisabledText | matchers.go:192-199 | "backup disabled" is classified as a backup and mentions "disabled" but not "enabled" |
| Matchers.BackupEnabled | matchers.go:189-204 | "backup enabled" is a backup change that goes up |
| Matchers.BackupEnabledText | matchers.go:192-195 | "backup enabled" is classified as a backup and mentions "enabled" |
| Matchers.NoPatternWithoutOM | matchers.go:45-46 | a description without o and m in any case matches neither the subnet nor the size pattern |
| Matchers.NoPhraseWithoutR | matchers.go:124-158 | a description without r matches neither the persistence nor the replication phrase |
| Matchers.NoPhraseWithoutYC | matchers.go:137-172 | a description without y and capital C matches neither the sync nor the clustering phrase |
| Matchers.NoAlertWithoutYOR | matchers.go:173-188 | a description without y, o and r matches no alert phrase |
| Matchers.ConfigEventFromLogEvent | matchers.go:372-379 | a fresh zero-valued event from a log event, classified: the rule the description selects applied to it, so time stamp, database and description are kept, title and icon are that rule's, a direction is set, and the values are the rule's or else zero |
| Matchers.DBInfoFromRCutils | matchers.go:352-370 | the same database name and as many events; the event at each position is the rule its description selects applied to the fresh event of the log event there, with that rule's title and icon and the log event's time stamp, database and description |
| Matchers.Fresh | matchers.go:373-377 | the zero-valued event built from a log event; `Matchers.ConfigEventFromLogEvent` states what classifying it gives |
| Matchers.Match | matchers.go:381-403 | `Match` is the scan of the 21-rule table; `Matchers.ClassifiedByFirstRule` states it applies the first matching rule |
| Matchers.LowerContains | matchers.go:126 | `strings.Contains(strings.ToLower(e.Change), p)`, the case-insensitive test most rules use; `Matchers.ClassifiedByFirstRule` and the per-rule lemmas state which texts it admits |
| Matchers.LowerPrefix | matchers.go:118 | `strings.HasPrefix(strings.ToLower(e.Change), p)`, the test of the rename, backup and module rules; `Matchers.NotLowerPrefix` states when it fails |
| Matchers.MatchIn | matchers.go:381-403 | the scan over any table; `Matchers.FirstMatchWins` ties it to `Matchers.FirstMatch` |
| Matchers.Apply | matchers.go:384-397 | one matching rule applied: values, then icon, then direction, then title; `Matchers.ApplyReadsDescriptionAndValues` and `Matchers.ValuesWrittenByTwoRules` state what it reads and writes |
| Matchers.Matches | matchers.go:49-350 | the `match` predicate of each rule; the no-phrase and classification lemmas below state which texts each rule takes |
| Matchers.Values | matchers.go:68-83 | the `values` resolver, present only for the memory and throughput rules (`Matchers.ValuesWrittenByTwoRules`) |
| Matchers.IconResolver | matchers.go:95-115 | the `icon` resolver, present only for the activation rule (`Matchers.Activations`) |
| Matchers.DirectionResolver | matchers.go:49-350 | the `direction` resolver of each rule that has one; `Matchers.MemoryDirection`, `Matchers.ThroughputDirection` and `Matchers.BackupDirection` state three of them as if-and-only-ifs |
| Matchers.Icon | matchers.go:387-391 | the icon resolver's choice when the rule has one, otherwise the static icon; `Matchers.Activations` and `Matchers.ConfigEventFromLogEvent` state the icon an event gets |
| Matchers.FallbackIcon | matchers.go:49-350 | the static `Icon` of each rule, shown by the legend (`Timeline.Legend`) |
| Matchers.FallbackDirection | matchers.go:49-350 | the static `Direction`; with the resolvers it leaves no rule without a direction (`Matchers.DirectionOf`) |
| Matchers.Title | matchers.go:49-350 | the `Title` of each rule; `Matchers.TitleNamesRule` states that titles are distinct |
| Matchers.MemoryValues | matchers.go:68-83 | the memory `values` resolver; `Matchers.MemoryUnparsable` and `Matchers.GigabyteValues` state its result |
| Matchers.ThroughputValues | matchers.go:237-250 | the throughput `values` resolver; `Matchers.ThroughputUnparsable` and `Matchers.OpsValues` state its result |
| Matchers.Classify | matchers.go:381-399 | the rule that classifies a description, the one `Matchers.RuleIndex` picks |
| Matchers.ThroughputInNumbers | matchers.go:233-263 | "Database Throughput was changed from a ops/sec to b ops/sec" is a throughput change with the speedometer icon; while both rates fit in an int it goes from a to b, up, down or NA as b is greater, smaller or equal; otherwise the values are (0, 0) and the direction NA |
| Matchers.OpsIsThroughput | matchers.go:49-263 | that description is classified by the throughput rule, the 13th |
| Matchers.OpsClassified | matchers.go:49-263 | a description the throughput pattern matches, without i, l, y and C and starting "Da", is a throughput change |
| Matchers.OpsMissesEarlierRules | matchers.go:49-232 | such a description escapes all twelve rules before the throughput rule |
| Matchers.OpsValues | matchers.go:237-250 | its values are (a, b) when both fit in an int and (0, 0) otherwise |
| Matchers.OpsTextFound | matchers.go:47 | the throughput pattern reads back both numerals of that description |
| Matchers.OpsNoStore | matchers.go:124-158 | without i, neither the persistence nor the replication phrase occurs |
| Matchers.OpsNoAlert | matchers.go:159-188 | without i, l and y, neither the sync phrase nor any alert phrase occurs |
| Matchers.OpsClusterPhrases | matchers.go:137-144 | without a capital C, neither cluster phrase occurs |
| Matchers.OpsNoPattern | matchers.go:45-46 | without i the subnet pattern cannot match, without y the size pattern cannot |
| Matchers.OpsNoPrefix | matchers.go:95-123 | a description starting "Da" is neither activation text and has none of the rename, backup and module prefixes |
| Matchers.NotLowerPrefix | matchers.go:118 | a text whose lowered k-th character differs from a phrase's does not start with it once lowered |
| Numbers.ConvertSize | matchers.go:405-417 | a size converts exactly when its magnitude parses; gigabytes in any case are scaled by 1000, megabytes and anything else by 1; the fraction is cut off |
| Numbers.Scaled | matchers.go:410-416 | the result is the whole part of the scaled magnitude |
| Numbers.Quotient | matchers.go:410-416 | division of naturals rounding down, the truncation of a non-negative value |
| Numbers.ParseDecimalAccepts | matchers.go:406 | a magnitude parses exactly when it is digits with at most one point and at least one digit |
| Numbers.ParseDecimalSound | matchers.go:406 | an accepted magnitude is digits with at most one point and at least one digit |
| Numbers.ParseDecimalComplete | matchers.go:406 | every such string is accepted |
| Numbers.ParseWhole | matchers.go:406 | a run of digits parses to its value |
| Numbers.ParseFixedPoint | matchers.go:406 | "w.f" parses to w + f / 10^\|f\| |
| Numbers.ConvertRejectsText | matchers.go:406-409 | a magnitude starting with neither a digit nor a point is an error, whatever the unit |
| Numbers.ConvertGigabytes | matchers.go:410-412 | n in "GB" or "gb" converts to 1000·n |
| Numbers.ConvertMegabytes | matchers.go:413-415 | n in "MB" converts to n |
| Numbers.ScaledWhole | matchers.go:410-416 | scaling a whole number is exact |
| Numbers.Atoi | matchers.go:238-247 | a digit string converts exactly when its value fits in a 64-bit int, and then to that value; empty text, or text that is not all digits and does not start with a sign, is an error; every result lies in the 64-bit range |
| Numbers.AtoiNumeral | matchers.go:238-247 | every numeral that fits converts back to its number |
| Numbers.Numeral | matchers.go:46-47 | the decimal numeral of n: digits only, no leading zero, value n |
| Numbers.ParseDecimal | matchers.go:406 | `strconv.ParseFloat` on the texts the size pattern captures; `Numbers.ParseDecimalAccepts`, `Numbers.ParseWhole` and `Numbers.ParseFixedPoint` state what it accepts and yields |
| Numbers.IndexOf | matchers.go:406 | the position of the first occurrence of a character, or the length when there is none |
| Patterns.SubnetMatches | matchers.go:52 | `subnetRegex.MatchString`: a match at some position; `Patterns.SubnetTextMatches` and `Patterns.SubnetNeedsChar` state what it takes and refuses |
| Patterns.SizeMatches | matchers.go:66 | `sizeRegex.MatchString`; `Patterns.SizeFound` ties it to the submatch search |
| Patterns.ThroughputMatches | matchers.go:235 | the throughput pattern's `MatchString`; `Patterns.ThroughputFound` ties it to the submatch search |
| Patterns.Fold | matchers.go:45-47 | the simple case folding behind `(?i)`; `Patterns.LetterFoldFree` and `Patterns.SymbolFoldFree` state which characters fold to a letter or symbol |
| Patterns.SubnetAt | matchers.go:45 | the subnet pattern at one position; `Patterns.SubnetTextMatches` and `Patterns.SubnetNeedsChar` state what it takes and refuses |
| Patterns.SizeAt | matchers.go:46 | the size pattern at one position; `Patterns.SizeAtParts` and `Patterns.SizeTextAtStart` state its groups |
| Patterns.ThroughputAt | matchers.go:47 | the throughput pattern at one position; `Patterns.ThroughputTextFound` states its groups |
| Patterns.FindSize | matchers.go:66-69 | `FindStringSubmatch` for the size pattern, the leftmost match (`Patterns.FindSizeFrom`) |
| Patterns.FindThroughput | matchers.go:235-238 | `FindStringSubmatch` for the throughput pattern, the leftmost match (`Patterns.FindThroughputFrom`) |
| Patterns.RunLength | matchers.go:46-47 | a greedy character-class run stays inside the string |
| Patterns.RunLengthMaximal | matchers.go:46-47 | the run is all in the class and cannot be extended |
| Patterns.RunLengthIs | matchers.go:46-47 | a run that ends where the class stops has exactly that length |
| Patterns.FindSizeFrom | matchers.go:46 | the leftmost size match at or after a position: it matches there and nowhere before; none means no match anywhere after |
| Patterns.FindThroughputFrom | matchers.go:47 | the same for the throughput pattern |
| Patterns.QuantityAt | matchers.go:46 | a magnitude and unit group ends inside the string |
| Patterns.QuantityFound | matchers.go:46 | a magnitude, a space and a unit not followed by a letter are read back as the two groups |
| Patterns.SizeFound | matchers.go:66-69 | the size pattern matches exactly when its submatch search finds something |
| Patterns.ThroughputFound | matchers.go:235-238 | the same for the throughput pattern |
| Patterns.SizeTextFound | matchers.go:46 | the size pattern reads back the four groups of any description written in its shape |
| Patterns.SizeTextAtStart | matchers.go:46 | that description matches at its start with those groups |
| Patterns.SizeAtParts | matchers.go:46 | the pattern matches where its literal parts and groups follow one another |
| Patterns.SizeTextFirst | matchers.go:46 | the head and first group of such a description are read back |
| Patterns.SizeTextSecond | matchers.go:46 | the separator and second group of such a description are read back |
| Patterns.SizeTextLayout | matchers.go:46 | where each part of such a description sits |
| Patterns.ThroughputTextFound | matchers.go:47 | the throughput pattern reads back both numbers of a description in its shape |
| Patterns.SubnetTextMatches | matchers.go:45 | "Source ip/subnet added." or "deleted." followed by " Ip/subnet - " and an address character matches the subnet pattern |
| Patterns.LiteralItself | matchers.go:45-47 | a literal matches where it is written |
| Patterns.LiteralNeedsChar | matchers.go:45-47 | a literal cannot match a string missing one of its letters under case folding |
| Patterns.SubnetNeedsChar | matchers.go:45 | the subnet pattern cannot match a string missing a letter of its head |
| Patterns.SizeNeedsChar | matchers.go:46 | nor can the size pattern |
| Patterns.ThroughputNeedsChar | matchers.go:47 | nor can the throughput pattern |
| Patterns.LetterFoldFree | matchers.go:45-47 | under case folding, a letter is absent when its cases (and the Kelvin and long-s signs for k and s) are absent |
| Patterns.SymbolFoldFree | matchers.go:45-47 | a non-letter folds only to itself |
| Text.ToLower | matchers.go:118 | the per-character mapping behind `strings.ToLower`; `Text.LowerMissingChar` states which characters map to a given lower-case letter |
| Text.Lower | matchers.go:118 | `strings.ToLower`; `Text.LowerMissingChar` and `Text.LowerOfLowerCase` state what it changes |
| Text.Contains | matchers.go:126 | `strings.Contains`; `Text.ContainsPlaced` and `Text.MissingCharNotContained` state when it holds |
| Text.HasPrefix | matchers.go:118 | `strings.HasPrefix`; `Text.PrefixIsContained` relates it to containment |
| Text.Less | timeline.go:137 | Go's `<` on strings; the four lemmas below state that it is a strict total order |
| Text.LowerMissingChar | matchers.go:118 | a lower-case letter is absent from the lowered string when all its upper-case forms are absent |
| Text.LowerOfLowerCase | matchers.go:118 | lowering a string without capitals changes nothing |
| Text.PrefixIsContained | matchers.go:118 | a prefix is contained |
| Text.ContainsPlaced | matchers.go:126 | a string contains what is written into it |
| Text.MissingCharNotContained | matchers.go:126 | a string missing one character of a phrase does not contain the phrase |
| Text.LessIrreflexive | timeline.go:137 | no string is below itself |
| Text.LessAsymmetric | timeline.go:137 | two strings are not below each other |
| Text.LessTransitive | timeline.go:137 | the string order is transitive |
| Text.LessTotal | timeline.go:137 | distinct strings are ordered one way or the other |
| Sorting.Sort | timeline.go:57-59 | the result is a permutation of the input of the same length, in order, for any total preorder |
| Sorting.Insert | timeline.go:57-59 | inserting into a sorted sequence keeps it sorted and adds exactly that element |
| Timeline.BucketKey | timeline.go:116 | the bucket of a time stamp; `Timeline.BucketInterval` states which time stamps share one |
| Timeline.InBucket | timeline.go:115-126 | the events of one bucket, in order; the three lemmas below state its contents |
| Timeline.HourlyKeepsMinutes | timeline.go:18-20 | two time stamps a minute or more apart never share an "hourly" bucket, whose format keeps the minutes |
| Timeline.BucketInterval | timeline.go:15-20 | a time stamp falls in bucket k exactly when it lies in the k-th day (or minute) |
| Timeline.HalfHourApart | timeline.go:18-20 | 10:00 and 10:30 share a daily bucket but not an "hourly" one, whose format keeps the minutes |
| Timeline.Width | timeline.go:15-20 | buckets have a positive length |
| Timeline.InBucketAppend | timeline.go:117-126 | the events of a bucket keep their relative order |
| Timeline.InBucketCount | timeline.go:117-126 | every occurrence of an event lands in the bucket of its time stamp and in no other |
| Timeline.InBucketEmpty | timeline.go:117-126 | a bucket's cell has events exactly when some event's time stamp falls into it |
| Timeline.BuildTimeline | timeline.go:110-128 | each cell holds the events of that database in that bucket, in order; a cell exists exactly when it would have events; no bucket is empty |
| Timeline.AddEvent | timeline.go:117-125 | one event appended to its cell, bucket and cell created when missing; `Timeline.PlaceStep` states that it keeps the timeline in shape |
| Timeline.PlaceDatabase | timeline.go:116-126 | placing one database's events adds its cells and keeps the others |
| Timeline.PlaceStep | timeline.go:118-125 | appending one event to its cell, creating bucket and cell when missing, keeps the timeline in shape |
| Timeline.Complete | timeline.go:110-128 | once every database is placed, the cells are the bucket filters |
| Timeline.ByTime | timeline.go:57-59 | the order the `sort.Slice` comparator establishes, ascending time stamps; `Timeline.ByTimeIsTotalPreorder` states that it is a total preorder |
| Timeline.ByTimeIsTotalPreorder | timeline.go:57-59 | the comparator is reflexive, transitive and total, so `sort.Slice` under it yields ascending time stamps |
| Timeline.Events | timeline.go:53-62 | nothing for a database without a cell; otherwise the cell's events, each as often, in ascending time order |
| Timeline.RowCount | timeline.go:66-69 | the number of rows is the number of rules divided by the row length, rounded up |
| Timeline.Legend | timeline.go:65-85 | rows of full length; slot m of row n holds the title and static icon of rule n·rowLen+m while there is one, and nothing after |
| Timeline.Slot | timeline.go:76-80 | one legend slot: the title and static icon of the rule at that position, or nothing past the last rule; `Timeline.Legend` states where each slot sits |
| Timeline.LegendRow | timeline.go:74-82 | one row: the slots of consecutive rules until they run out, then nothing |
| Timeline.LegendPlacesEveryRule | timeline.go:65-85 | every rule is shown, in the row of its position divided by the row length, at the remainder's column |
| Timeline.InitDBList | timeline.go:131-139 | the database names are exactly the keys of the map, each once, in strictly ascending order |
| Timeline.DistinctSortedIsStrict | timeline.go:137 | sorting names without repetitions gives a strictly ascending list |
| Timeline.NotAfter | timeline.go:137 | the order `slices.Sort` establishes on names, not greater; `Timeline.NotAfterIsTotalPreorder` states it is a total preorder |
| Timeline.NotAfterIsTotalPreorder | timeline.go:137 | "not greater" is a total preorder on strings |
| Lister.Kept | main.go:57-72 | the filter of the lister's loop; `Lister.Whitelisted` and `Lister.KeptOfMembers` state it |
| Lister.KeptOf | main.go:57-72 | the kept rows of one source, in row order; `Lister.KeptOfMembers` and `Lister.KeptOfAppend` state its members and order |
| Lister.KeptRecords | main.go:44-74 | the kept records of all sources; `Lister.Collect` computes it and `Lister.KeptRecordsMembers` states its members |
| Lister.Less | main.go:138-144 | `ConfigEvents.Less`; the three lemmas below state that it is a strict order |
| Lister.Whitelisted | main.go:60-68 | the whitelist check passes exactly when no databases were named or the database is one of them |
| Lister.Collect | main.go:57-74 | the collected records are the configuration changes of the named databases, source by source, each in row order |
| Lister.KeptOfMembers | main.go:57-72 | a record of a source is kept exactly when it is a configuration change of a named database, or any database when none is named |
| Lister.KeptRecordsMembers | main.go:44-74 | a record is collected exactly when some source holds it and it passes the filter |
| Lister.KeptOfAppend | main.go:57-72 | filtering keeps row order |
| Lister.KeptRecordsAppend | main.go:44-74 | the records of earlier sources come before those of later ones |
| Lister.LessIrreflexive | main.go:138-144 | no record is `Less` than itself |
| Lister.LessAsymmetric | main.go:138-144 | two records are not `Less` than each other |
| Lister.LessTransitive | main.go:138-144 | `Less` is transitive |
| Lister.NotAfter | main.go:77-83 | the order `sort.Slice` establishes with `Less`, not greater; `Lister.NotAfterIsTotalPreorder` and `Lister.InOrder` state it |
| Lister.NotAfterIsTotalPreorder | main.go:77-83 | "not `Less`" is a total preorder, as `sort.Slice` needs |
| Lister.InOrder | main.go:78-82 | two records in that order are ascending by time, or by database then time |
| Lister.ListConfigEvents | main.go:57-84 | the output is a permutation of the kept records, ascending by time stamp, or, with the database sort, by database name with ties broken by time stamp |

## Left out

- Input and output: `initSources`, the command-line flags, CSV decoding,
  byte-order-mark skipping, `renderTimeline`, `initTemplate`, the template
  text, logging and printing. The model starts from the decoded records and
  ends at the values handed to the template or the printer.
- The indexing of account and subscription ids in `initSources` is part of
  the input plumbing, and is left out with it.
- graphs.go: its code is commented out, apart from two types that nothing
  uses and the embedded chart template `chartTemplateSource`, which only
  `initTemplate` reads.
- The Go regex engine. The three patterns are hand-written parsers that
  find the leftmost match with greedy groups, and case-insensitive
  matching is modelled as Unicode simple case folding. Only
  `Patterns.SizeTextFound`, `Patterns.ThroughputTextFound` and the
  subnet lemma exercise the parsers on concrete shapes.
- Numbers.ConvertSize: `strconv.ParseFloat(num, 32)` is modelled as exact
  decimal arithmetic on digits with at most one point. Go rounds to a
  32-bit float first, so "0.7 GB" gives 699 there and 700 here. Exponents,
  signs, hexadecimal forms, "inf" and "nan" are left out too, but the
  pattern never passes them. So is the range error for magnitudes beyond
  the float32 range. So is the overflow of Go's `int(base * 1000)` and
  `int(base)`: a magnitude such as "100000000000000000000 GB" is inside the
  float32 range but 10^23 does not fit in a 64-bit `int`, and Go's result
  is then implementation-dependent; the model returns the unbounded
  whole number.
- Matchers.ConfigEvent: `time.Time` becomes an integer time stamp. Go
  formats each time stamp in its own location; the model assumes all time
  stamps share one zone, so the bucket key is the day or minute number
  counted in that zone. Time zones and `Format` are left out.
- Matchers.Rule: the table of Go structs holding closures is an
  enumeration with one dispatch function per field (match, values, icon,
  direction, and the static icon, title and direction). The order and
  contents of the 21 rules are the same.
- Matchers.DBInfoFromRCutils: only the database name and the events are
  modelled. The creation and deletion times, the initial sizes, the
  ambiguity flag and the status record are copied unchanged by the source.
- Timeline.Legend: the value of `ROWLEN` is not defined in the files
  modelled here, so it is a positive parameter.
- Timeline.Events: Go sorts the cell in place and returns the same slice.
  The model returns a sorted copy and does not model aliasing.
- Timeline.Events, Lister.ListConfigEvents: `sort.Slice` is not stable,
  and the model promises no order among equal elements either.
- Timeline.BuildTimeline: map iteration order is not modelled. The result
  is the same for every order, because each database's events are
  appended to their own cells.
- Lister.ListConfigEvents: the slice of event references and the printed
  format are left out. Records are values.
