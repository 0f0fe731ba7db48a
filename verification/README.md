# cronstable, modelled and proved in Dafny

cronstable is a cron replacement that can run on several nodes at once. This
project models its two hard components and two small ones, and proves what they
promise.

- **The cron engine** (`cronstable/cronexpr.py`): the calendar, the expression
  parser with the `L`, `W`, `#` and hashed `H` forms, the forward and backward
  calendar searches, and the search by real instants in a zone with offset
  transitions.
- **The gossip election** (`cronstable/cluster.py`): the peer table and its
  field-by-field updates, the derived live, bridge, eligible and vouched sets,
  the three elections, the whole cluster as a system of polls, the generation-keyed
  memo, the conditional (ETag and 304) exchange, and the gossip of `@reboot` jobs
  that already ran.
- **The month-length lint** (`cronstable/croninfo.py`) and **the `${VAR}` scanner**
  (`cronstable/config.py`).

## How the model reads

| module | what it holds |
|---|---|
| `Calendar` | the Gregorian calendar, the whole-second count and its inverse |
| `CronTab` | the parsed field sets, `test`, the calendar meaning of `L`, `W`, `#` |
| `Text`, `CronParse`, `CronRender` | string operations, the parser and `resolved_source`, the parser read from the printing side |
| `CivilSearch` | `_next_civil`, `_prev_civil`, naive `occurrences` |
| `Zone`, `ZonedSearch`, `ZonedPrev` | offset transitions and `fold`, aware `next`, `occurrences` and `prev` |
| `MonthLint`, `EnvScan` | the lint and the scanner |
| `PeerTable`, `Election` | one node: its entries, its sets, its elections |
| `Topology`, `Gossip`, `Convergence` | the converged graph, runs of polls, and how the second reaches the first |
| `View` | the peer objects, the generation counter and the memo |
| `Conditional`, `RebootGossip` | the two protocols beside the election |

A loop of the source is a method proved against a specification function or a
stated property; an object updated in place is a class; the rest are functions.
The wall clock, the network and the environment are parameters. `_hrw_score`
and `_hash_value` are arbitrary functions, so every result holds for any hash.
Names are strings under lexicographic order.

A zone is any list of offset transitions more than 26 hours apart whose jumps fit
inside that distance, which is the assumption stated beside `_GAP_PROBE`.

## Where a promise holds only under a condition

- *Aware `next`.* For every aware now it answers for the least accepted label above
  its rewound seed that is still to come. It returns what the least of all labels calls
  for, on every schedule, exactly at the datetimes `SeedTrusted` describes
  (`SeedLosesNothing`, `TrustIsExact`). The others are wall times a gap skipped that
  carry `fold=1` (`UntrustedNowExists`); at each of them some one-shot still to come is
  answered with None (`UntrustedNowLosesAFire`).
- *`occurrences` as iterated `next`.* The first yield is always the instant `next` fires
  at from the start. A label is shadowed at a yield when it lies in the latest gap and
  resolves later although the clock already shows a later label. Each later yield is the
  instant `next` fires at from the one before exactly when no accepted label is shadowed
  there, or the least shadowed one, moved by the gap's jump, is the yielded label
  (`StepAgreesWithNext`). The every-second schedule always agrees, shadowed labels or
  not (`EverySecondAgrees`); the schedule at 02:05, 02:20 and 02:40 over a half-hour gap
  does not, at a yield the gap did not move (`UnmovedYieldDisagrees`). The module
  documentation promises more; the model follows the code.
- *Aware `prev`.* Every answer is the instant of an accepted label strictly before now,
  and whatever accepted label resolves between the two is passed over by a gap-moved
  one. None is returned exactly when no anchor answers, which is more often than the
  documentation says: a one-shot on the label a gap ends on is never reported
  (`PrevForgetsGapEnd`).
- *One leader.* Two quorate nodes can both lead when their bridge is too thin
  (`ThinBridgeDoubleLeads`). `LeadsIff` says exactly when a node leads and
  `AtMostOneLeaderIff` exactly when at most one does. Spread mode has no such gap
  (`SpreadIsExactlyOnce`).

## Model

| member | source | states |
|---|---|---|
| Calendar.SecondsOrder | cronstable/cronexpr.py:1062-1099 | the whole-second count preserves and reflects the ordering of datetimes the searches compare by, and is injective |
| Calendar.CivilOfSeconds | cronstable/cronexpr.py:1062-1099 | every whole second is the count of exactly one civil instant, so the searches may be read on counts |
| CronTab.ShiftIsNearest | cronstable/cronexpr.py:615-631 | for a target inside the month, the shifted day is the unique Monday-to-Friday day of the month nearest the target, both directions |
| CronTab.ShiftIsLast | cronstable/cronexpr.py:615-631 | aimed at the month's end the same rule gives exactly the month's last working day |
| CronTab.OrdinalIsCount | cronstable/cronexpr.py:908-920 | the ordinal of a day is the number of days up to it that share its weekday |
| CronTab.LastSevenIsLast | cronstable/cronexpr.py:908-920 | lying in the last seven days is the same as no later day of the month sharing the weekday |
| CronTab.DomMatchesMeaning | cronstable/cronexpr.py:922-943 | the day-of-month side accepts exactly the listed days, the days counted back from the end, the last working day and the working days nearest the W targets |
| CronTab.DowMatchesMeaning | cronstable/cronexpr.py:908-920 | the day-of-week side accepts exactly the listed weekdays, last such weekdays and n-th such weekdays, by counting weekdays in the month |
| Text.JoinOfSplit | cronstable/cronexpr.py:353-372 | joining the comma items of a field gives back the text |
| Text.WordsOfJoin | cronstable/cronexpr.py:669-707 | columns joined by single spaces split back into the same columns |
| Text.ParseIntOfNumeral | cronstable/cronexpr.py:375-391 | a printed number reads back as itself |
| CronRender.ItemMeans | cronstable/cronexpr.py:375-456 | an item `*`, `a` or `a-b` over numbers, month names and weekday names, with or without `/n`, is accepted exactly when its values are in range, the range is not reversed (a weekday end of 0 reads as 7) and the first step stays inside; it then holds exactly every n-th value |
| CronParse.ParsePlain | cronstable/cronexpr.py:459-469 | the loop computes the union of its items, or fails as soon as one is refused |
| CronParse.ParseDom | cronstable/cronexpr.py:472-535 | the loop computes the four day-of-month sets item by item, with every error case |
| CronParse.ParseDow | cronstable/cronexpr.py:538-612 | the loop computes the three day-of-week sets item by item, Sunday folded to 0, with every error case |
| CronRender.ReadDomItems | cronstable/cronexpr.py:472-535 | days, `L`, `L-n`, `nW` and `LW` items each land in their own set, with exactly their values |
| CronRender.ReadDowItems | cronstable/cronexpr.py:538-612 | weekdays, `Ln`, `La-b` and `d#n` items each land in their own set, with exactly their values |
| CronRender.ReadSpan | cronstable/cronexpr.py:558-578 | a last-weekday range `La-b` is accepted exactly when both ends are at most 7, and adds the weekdays from a to b with Sunday folded |
| CronRender.ReadReversed | cronstable/cronexpr.py:558-578 | every reversed last-weekday range is accepted and adds nothing |
| CronParse.HashRange | cronstable/cronexpr.py:316-335 | the range an `H` item hashes over lies inside the field |
| CronParse.HashStepSpreads | cronstable/cronexpr.py:290-350 | `H/n` gives values exactly n apart that start within n of the range's start and end within n of its end; a bare `H` gives one value of the range |
| CronParse.HashedFieldParses | cronstable/cronexpr.py:290-350 | the text an `H` item expands to is read by the field parser as exactly the hashed values, in plain, day-of-month and day-of-week fields |
| CronParse.ExpandHashField | cronstable/cronexpr.py:353-372 | the loop expands every `H` item in place; a field without one comes back as the same text |
| CronParse.CleanFieldStays | cronstable/cronexpr.py:353-372 | a field without `H` items expands to itself under any key or none |
| CronParse.ParsedTabIsValid | cronstable/cronexpr.py:669-756 | every value of every accepted expression lies in its field's range and no column that must select something is empty |
| CronRender.EveryTableHasAnExpression | cronstable/cronexpr.py:669-756 | for every valid table there is a text that parses to exactly that table, column by column, under every hash and key |
| CronRender.TablesAreTheValidOnes | cronstable/cronexpr.py:669-756 | the tables accepted expressions denote are exactly the valid ones |
| CronParse.ResolvedSourceReparses | cronstable/cronexpr.py:767-777 | resolved_source re-parses with no key, under any hash, to an equal table and to itself |
| CronParse.ResolvedIsSource | cronstable/cronexpr.py:767-777 | without `H` items resolved_source is the whitespace-normalised source |
| CivilSearch.FirstTime | cronstable/cronexpr.py:1109-1134 | the earliest matching time of day at or after the bound, None exactly when there is none |
| CivilSearch.LastTime | cronstable/cronexpr.py:1260-1287 | the latest matching time of day at or before the bound, None exactly when there is none |
| CivilSearch.NextIn | cronstable/cronexpr.py:1101-1107 | the least listed value above the current one, None exactly when there is none |
| CivilSearch.PrevIn | cronstable/cronexpr.py:1252-1258 | the greatest listed value below the current one, None exactly when there is none |
| CivilSearch.NextCivil | cronstable/cronexpr.py:1062-1099 | terminates with the least accepted instant strictly after the given one and no later than 2099, None exactly when there is none |
| CivilSearch.PrevCivil | cronstable/cronexpr.py:1208-1250 | terminates with the greatest accepted instant strictly before the given one (microseconds included) and no earlier than 1970, None exactly when there is none |
| CivilSearch.NextIsUnique | cronstable/cronexpr.py:1062-1099 | the forward search's specification has one solution |
| CivilSearch.WalksAreInverse | cronstable/cronexpr.py:1208-1250 | on accepted instants from 1970 to 2099 a forward step and a backward step undo each other |
| CivilSearch.OccurrencesNaive | cronstable/cronexpr.py:1339-1346 | a naive iteration lists every accepted instant after the start once, in order, none skipped |
| Zone.ResolvesAfter | cronstable/cronexpr.py:949-1002 | exactly which wall labels resolve strictly after a given instant |
| Zone.ThresholdIsSafe | cronstable/cronexpr.py:949-1002 | no label at or below the threshold of an instant resolves after it |
| Zone.ShiftedLabel | cronstable/cronexpr.py:1292-1363 | a label the zone does not leave in place lies in a gap and is moved forward by the jump |
| Zone.AdvanceIsSafe | cronstable/cronexpr.py:1004-1060 | moving the cursor over the shifted label of a past fire loses no later fire |
| Zone.LaterLabelsResolveLater | cronstable/cronexpr.py:1292-1363 | labels after the one shown at a resolved instant resolve later still |
| ZonedSearch.TrustedSeed | cronstable/cronexpr.py:949-1002 | for a trusted datetime the rewound seed is at or below the threshold, and on it while gap-shifted fires are pending |
| ZonedSearch.SeedLosesNothing | cronstable/cronexpr.py:949-1002 | the rewound seed loses no pending fire if and only if the datetime is trusted |
| ZonedSearch.UntrustedSeedIsAhead | cronstable/cronexpr.py:949-1002 | for an untrusted datetime every label from the seed on resolves after it, so the search never rejects a candidate |
| ZonedSearch.SeedFits | cronstable/cronexpr.py:949-1002 | from every rewound seed, trusted or not, stepping over rejected candidates loses nothing |
| ZonedSearch.UntrustedNowLosesAFire | cronstable/cronexpr.py:1004-1060 | in every zone, at every untrusted now in the years 1970 to 2099, a valid one-shot schedule is still to come though next returns None |
| ZonedSearch.TrustIsExact | cronstable/cronexpr.py:949-1060 | a now is trusted if and only if, for every valid schedule, next returns what the least label still to come calls for, None included |
| ZonedSearch.UntrustedNowExists | cronstable/cronexpr.py:949-1002 | for every base instant, a zone and a datetime for which the seed is not trusted |
| ZonedSearch.Next | cronstable/cronexpr.py:1004-1060 | for every aware now, the true delay to the least accepted label above the rewound seed that resolves strictly later, None exactly when there is none up to 2099; for a trusted now the same over all labels |
| ZonedSearch.Occurrences | cronstable/cronexpr.py:1292-1363 | for every aware start, strictly increasing real instants after it, each the first-leg resolution of an accepted label; the first is what next gives; each later one is the instant next fires at from the yield before exactly when the labels shadowed there meet it; after the last, next has nothing left exactly when no accepted label is shadowed; every later accepted label above the seed is yielded or stepped over by a yield a gap moved past it |
| ZonedSearch.YieldIsTrusted | cronstable/cronexpr.py:1292-1363 | a yield read back as an aware datetime is trusted, so next at it is the least of all labels |
| ZonedSearch.NextPicks | cronstable/cronexpr.py:1004-1060 | at a yield, next picks the least shadowed accepted label, or the label after the clock's when none is shadowed |
| ZonedSearch.StepAgreesWithNext | cronstable/cronexpr.py:1292-1363 | the yield after u is the instant next fires at from u if and only if no accepted label is shadowed at u or the least shadowed one moved by the jump is the yielded label |
| ZonedSearch.EndAgreesWithNext | cronstable/cronexpr.py:1292-1363 | when the iteration ends after u, next has nothing left at u if and only if no accepted label is shadowed at u |
| ZonedSearch.EverySecondAgrees | cronstable/cronexpr.py:1292-1363 | in every zone, at every yield before the horizon, the every-second schedule steps to the instant next fires at, shadowed labels or not |
| ZonedSearch.UnmovedYieldDisagrees | cronstable/cronexpr.py:1292-1363 | on every day before the horizon, a valid schedule and a half-hour gap for which the step after an unmoved yield is not what next gives |
| ZonedPrev.PrevLabel | cronstable/cronexpr.py:1208-1250 | the greatest accepted label from 1970 to 2099 below the cut, None exactly when there is none |
| ZonedPrev.Replay | cronstable/cronexpr.py:1191-1204 | consuming the generator up to the cut finds something exactly when its first yield is below the cut, and then the last accepted instant before it but for labels a gap-moved one passes over |
| ZonedPrev.Prev | cronstable/cronexpr.py:1139-1206 | for every aware now, the true time since an accepted label's instant strictly before now, such that every accepted label resolving between the two is passed over by a gap-moved one; None exactly when no anchor in place yields below now from the second before it |
| ZonedPrev.OneLabelAnswersIff | cronstable/cronexpr.py:1191-1206 | a single-label schedule is answered if and only if its label is in place, resolves before now, and the label before it resolves earlier |
| ZonedPrev.PrevForgetsGapEnd | cronstable/cronexpr.py:1191-1206 | in every zone with a forward gap, a valid one-shot on the label the gap ends on fires at the transition and no now makes prev report it |
| MonthLint.LandsIffFits | cronstable/croninfo.py:795-861 | a month of a year has a date the engine's day-of-month side accepts exactly when some day form fits the month's length |
| MonthLint.NeverLandsIffTooLong | cronstable/croninfo.py:795-861 | a month never lands in any year exactly when nothing fits the longest it gets |
| MonthLint.LeapOnlyIffFits29 | cronstable/croninfo.py:795-861 | February lands in leap years only exactly when something fits 29 days and nothing fits 28 |
| MonthLint.LintMonthLengths | cronstable/croninfo.py:795-861 | a selected month is reported skipped if and only if the engine accepts no date of it in any year, and leap-day-only is reported if and only if February lands in leap years alone |
| EnvScan.TokenIsUnique | cronstable/config.py:3610-3667 | at most one of the three grammar forms matches at a position, with one name and one default |
| EnvScan.LookaheadDecides | cronstable/config.py:3610-3667 | the scanner's lookahead finds a braced form exactly where the grammar has one |
| EnvScan.AtDollar | cronstable/config.py:3610-3667 | one dollar sign handled by the scanner keeps the meaning of the rest, including once the no-closing-brace shortcut is on |
| EnvScan.Interpolate | cronstable/config.py:3610-3667 | for every string and environment the single pass returns what the leftmost grammar denotes, first unset variable included |
| EnvScan.EscapeRoundTrips | cronstable/config.py:3610-3667 | doubling every dollar sign makes interpolation return the text, in every environment, without error |
| PeerTable.StreakCountsMismatches | cronstable/cluster.py:1024-1189 | over any history the streak is the number of id mismatches since the last agreement or self observation |
| PeerTable.SelfLatch | cronstable/cluster.py:1024-1189 | over any history the self latch holds exactly while the latest success identified this node |
| PeerTable.StatusMeaning | cronstable/cluster.py:1024-1189 | over any history every status is characterised by the last outcome, the streak and the latest success |
| PeerTable.ClusterSize | cronstable/cluster.py:2685-2745 | the count is this node, each known process once however many addresses it has, and each unidentified entry |
| PeerTable.AgreeingPeers | cronstable/cluster.py:2751-2839 | the loop computes the counted peers in table order, one per known process |
| PeerTable.LiveSetFitsCluster | cronstable/cluster.py:2751-2839 | in every table, this node and its agreeing peers never exceed the cluster size |
| PeerTable.CountedProcessesDiffer | cronstable/cluster.py:2751-2839 | no two counted peers are the same known process |
| Election.HrwOwnerBytes | cronstable/cluster.py:731-755 | the loop returns the member with the greatest score, ties to the greater name, the same winner the definition of rendezvous gives |
| Election.BridgeCandidates | cronstable/cluster.py:2852-2916 | the witness tally keeps exactly the names not agreed with directly that enough agreeing peers report |
| Election.UnconfirmedContenders | cronstable/cluster.py:2962-3031 | the loop keeps exactly the names the agreeing peers vouch for that are neither this node, a live peer nor already eligible |
| Election.ElectLeader | cronstable/cluster.py:644-684 | None exactly without a quorum, otherwise the lowest of this node and the candidates |
| Election.ConflictingPolicies | cronstable/cluster.py:3197-3250 | the loop collects exactly the distribution and electLeader values agreeing entries declare that differ from ours |
| Election.DroppedIsShown | cronstable/cluster.py:2751-2839 | the process behind every agreed, named, attesting entry is represented in the live set, or a divergent size or policy is on display |
| Election.NeverSkipsInAnyView | cronstable/cluster.py:3524-3586 | in every view whose gossiped names are real nodes, however stale, the globally lowest name elects itself available leader and the node ranked first for a job owns it |
| Topology.ElectableAreQuorate | cronstable/cluster.py:2919-2959 | in a converged view every electable name is a quorate node |
| Topology.MajoritiesShareWitness | cronstable/cluster.py:2962-3031 | two quorate nodes that do not agree share an agreeing node |
| Topology.OwnersAreTheQuorates | cronstable/cluster.py:3489-3511 | the rendezvous set of every quorate node is exactly the set of quorate nodes |
| Topology.SpreadIsExactlyOnce | cronstable/cluster.py:3461-3511 | all quorate nodes name one owner, a quorate node, so exactly one runs the job |
| Topology.LeadsIff | cronstable/cluster.py:3280-3298 | a node leads exactly when it is quorate and can confirm no lower-named quorate node |
| Topology.SingleLeader | cronstable/cluster.py:3280-3298 | every elected name is quorate, the lowest-named quorate node elects itself, and two nodes that agree or share quorum - 1 members never both lead |
| Topology.ThinBridgeDoubleLeads | cronstable/cluster.py:2852-2916 | a graph in which two nodes both lead |
| Topology.AtMostOneLeaderIff | cronstable/cluster.py:3280-3298 | at most one node leads if and only if every quorate node above the lowest can confirm some lower-named quorate node |
| Topology.NeverSkipClaims | cronstable/cluster.py:3524-3586 | in a converged view two nodes that agree or share an agreeing peer never both claim, under name order or any job's ranking |
| Gossip.SizeIsShared | cronstable/cluster.py:2685-2745 | with one address per other node, all nodes compute the same size in every reachable state, from the first poll on |
| Gossip.SizeOnceIdentified | cronstable/cluster.py:2685-2745 | with self-listings and several addresses per node, the size is the number of nodes once every address is identified |
| Gossip.GossipNamesNodes | cronstable/cluster.py:1623-1691 | in every reachable state what a node gossips names real nodes only |
| Gossip.SaneRun | cronstable/cluster.py:2108-2143 | every sequence of successful and failed polls keeps every entry truthful about the node behind it |
| Gossip.NeverSkips | cronstable/cluster.py:3377-3395 | after any polls, however stale the views, the lowest name elects itself available leader and the top-ranked node for a job owns it |
| Convergence.AttestationFollowsLinks | cronstable/cluster.py:1201-1230 | once statuses are settled a node's payload attests another exactly when it reaches it |
| Convergence.LiveIsMutual | cronstable/cluster.py:2751-2839 | once attestation is settled the live set is exactly the mutual neighbourhood, each node once |
| Convergence.EligibleIsElectable | cronstable/cluster.py:2919-2959 | once mutual sets are settled the eligible set is the graph's electable set |
| Convergence.PollSettles | cronstable/cluster.py:2272-2573 | one poll of a cluster settled to a stage carries its entry to the next stage |
| Convergence.RunKeepsSettled | cronstable/cluster.py:2108-2143 | any polls along the links keep a settled stage settled |
| Convergence.RoundSettles | cronstable/cluster.py:2108-2143 | a complete round in any order settles the next stage |
| Convergence.FourRoundsConverge | cronstable/cluster.py:2751-3031 | from any views a run can leave behind, over any reachability, four complete rounds bring every node's live set, quorum, candidates, owner set and never-skip set to the graph's, and further polls along the links change none of them |
| Convergence.HealsAfterAnyHistory | cronstable/cluster.py:2108-2143 | after any history of successful and failed polls from fresh views, the empty one included, four complete rounds converge |
| Convergence.SpreadRunsExactlyOnce | cronstable/cluster.py:3461-3486 | on a converged cluster every quorate node computes one and the same owner, a quorate node, and every other node none |
| Convergence.LeadersAfterConvergence | cronstable/cluster.py:3280-3395 | on a converged cluster leader, available leader and available owner are the graph's |
| View.PeerState.constructor | cronstable/cluster.py:801-959 | a new entry holds the default record |
| View.ClusterView.constructor | cronstable/cluster.py:1010-1023 | one fresh, distinct entry per configured host, and the generation moves |
| View.ClusterView.RecordSuccess | cronstable/cluster.py:1024-1154 | the in-place field writes leave the entry equal to the specified successor and advance the generation |
| View.ClusterView.RecordFailure | cronstable/cluster.py:1156-1189 | likewise for a failed poll |
| View.Manager.Refresh | cronstable/cluster.py:1365-1418 | a changed key drops all cached results together and the cache stays sound |
| View.Manager.Get | cronstable/cluster.py:1365-1418 | a memoized read returns what recomputing from the current table would, nested reads included, and leaves the table alone |
| View.Manager.Observe | cronstable/cluster.py:941-959 | a recorded outcome changes one entry as specified and keeps the cache sound |
| View.Manager.OtherWrite | cronstable/cluster.py:941-959 | any fields of an entry written outside a recording, or of an entry of another view, keep the cache sound |
| View.Manager.Reidentify | cronstable/cluster.py:1522-1550 | an identity scalar reassigned in place keeps the cache sound |
| View.Interleave | cronstable/cluster.py:1365-1418 | over every interleaving of writes and reads the memoized reads return the uncached values, in order |
| Conditional.ServedIsCurrent | cronstable/cluster.py:1769-1883 | whatever pair the server serves, cached or built, describes its current state, and a 304 answers a tag the poller presented |
| Conditional.AnswerIsFresh | cronstable/cluster.py:2272-2573 | after a 200 or a 304 the poller's entry is what a fresh full body would have made it |
| Conditional.ExchangeIsInvisible | cronstable/cluster.py:1723-1883 | over every sequence of polls, failures, writes, reloads and restarts the election fields of the entry equal those of a poller always sent full fresh bodies |
| RebootGossip.RunIsSound | cronstable/cluster.py:1885-1945 | in every run, each record, served body and push holds only names marked under its own job-set id |
| RebootGossip.NeverRetiredByOldRun | cronstable/cluster.py:2577-2623 | in every run of marks, late or lost pushes, polls, replays and reloads, a node that reports a job as run under its live id has some node's mark of it under that id |
| RebootGossip.MarkStaysKnown | cronstable/cluster.py:2625-2640 | a mark stays reported by the marking node until it reloads, restarts or overflows |
| RebootGossip.ReportCarries | cronstable/cluster.py:2577-2619 | a report served to an agreeing node with the same live id makes that node report the job as run |

## Left out

- Sockets, TLS, handlers, logging, compression and the poll timer: a poll is one atomic step that delivers a payload or fails.
- Byzantine peers, payload size caps and older builds: payloads are well formed; only the caps on `@reboot` names are modelled, as arbitrary subsets.
- `conflict_names`, duplicate-name ceding, settling grace periods and fleet views: they gate or report on the derived sets and do not feed them; every other memoized derivation is in `View`.
- Job summaries and node statistics: the conditional exchange carries one countdown per job, standing for all fields that tick.
- The `ran` set in the conditional exchange: the response cache keys on the number of recorded runs, so it is excluded from `ExchangeIsInvisible` and covered by `RebootGossip`.
- Field writes in `View`: the writes of one recording advance the generation together; no derived read runs between them in the source either.
- Name lists as sorted sequences: the derived name collections are sets, their wire order is not modelled.
- `_is_self_listed` and other configuration checks: the table has one entry per configured host.
- Error texts and the Quartz hints: every rejection is one error value.
- Non-ASCII digits, spaces and case: strings are read as ASCII.
- Years outside 1 to 9999: datetime's overflow at its own limits is not modelled.
- The converse of `CronTab` equality: distinct tables can accept the same instants, so only equality of tables is used.
- English descriptions, rendering, the command line, metrics and the crontab and YAML loaders: presentation or plumbing.
- Convergence with self-listings or several addresses per node: the rounds are modelled with one address per other node; the size gate and the live set hold for every table.
