# Protek, modelled and verified in Dafny

Protek mirrors ban decisions from several CrowdSec local APIs (LAPIs) into one table, works out
which addresses each firewall should hold, and pushes capped deltas to every firewall list, cycle
after cycle, without ever touching an entry it did not create. Around that loop sit a settings
protocol shared by several processes, a static check that the router really drops the list, and a
handful of small state machines (rate limits, alerts, retention, disk watchdog, login lockout).

This project models those parts and proves what they guarantee over every input, every
interleaving and every run. `dafny verify dfyconfig.toml` checks everything.

## How the model is organised

| file | part of the system |
|---|---|
| `text.dfy`, `ordered.dfy` | Python strings, insertion-ordered dictionaries, order-preserving filters |
| `ownership.dfy`, `diff.dfy` | the ownership comment, address normal form, and the diff engine (`reconcile.py`) |
| `target.dfy`, `interleaving.dfy` | one firewall list, cycles and single operations, with an operator at the same list (`reconciler.py`) |
| `convergence.dfy`, `starvation.dfy` | what runs of cycles achieve, and exactly when adds starve |
| `end_to_end.dfy` | from the sources' histories to what a firewall holds |
| `selection.dfy`, `gates.dfy` | the per-target filter and cap; whitelist and approval gates |
| `mirror.dfy`, `outcome.dfy`, `federation.dfy`, `history.dfy`, `poller.dfy`, `stats.dfy` | the federated decision mirror, statement by statement |
| `env_file.dfy`, `settings_sync.dfy` | the `.env` line editor and the settings protocol (`connection.py`) |
| `firewall.dfy` | the firewall analysis and the first-match semantics it is judged by (`blocking.py`) |
| `token_bucket.dfy`, `alerting.dfy`, `retention.dfy`, `watchdog.dfy`, `lockout.dfy` | the bounded-resource and edge-triggered machines |
| `approvals.dfy` | what the retention sweep's protection of pending approvals protects |

Code that changes things step by step is a class or a method with a loop, proved equal to a
specification function; the theorems are about those functions. Outside inputs (clocks, network
outcomes, failures, query answer orders, thread schedules) are parameters or events, so every
theorem holds for all of them.

## Where the code does not do what its text promises

- `_normalize_addr` strips `/32` before the family is known, so an IPv6 `/32` network is taken for
  its base address. `Ownership.NormalizeConflatesNetworks` shows the whole family of failing inputs,
  `Diff.NetworkNeverAdded` what it costs, and `Ownership.NormalizeExact` the exact condition.
- Separate budgets stop removals from starving, as the comment at reconciler.py:268-276 says, but
  adds can still starve: `Starvation.OneForeignEntryStarves` is a starving list,
  `Convergence.MissingShrinksExactly` the exact condition for progress in one cycle and
  `Starvation.ReachesEveryoneExactly` the exact condition over runs.
- An operator who takes over an entry between a cycle's snapshot and its removal loses it:
  `Interleaving.TakeoverIsLost`, with the exact condition in `Interleaving.ForeignExactly` and
  `Interleaving.StealsExactly`.
- `record_429` says it drains the bucket immediately, but leaves the refill clock alone.
  `TokenBuckets.DrainIsNotFinal` gives the exact condition under which the very next call is granted.
- A save that fails after writing its own environment leaves that environment ahead of the file, and
  nobody looks again: `SettingsSync.FailedSaveTears` and, over runs, `SettingsSync.AgreesExactly`.
- A save reads the file long before it replaces it, so an edit in between is lost:
  `SettingsSync.EditDuringSaveIsLost`, with the exact condition in `SettingsSync.NoLostSave`.
- A blocking verdict looks at unconditional accepts only: `Firewall.ConditionalAcceptGoesUnseen`.
  `Firewall.DropsEveryListedExactly` says, in terms of the rules, when a chain really drops the list.
- The critical disk flag implies the warning flag only while neither is lost alone:
  `Watchdog.LostWriteBreaksIt`, with the exact condition in `Watchdog.NestedExactly`.
- The comment in `prune` promises to keep decisions that pending approvals point at, but approvals
  store LAPI ids and the sweep compares row ids: `Approvals.WrongRowIsSpared`,
  `Approvals.AwaitedSurviveExactly`.
- The fast statistics query is right exactly when no row was last seen before it was first seen
  (`Stats.QueriesAgreeExactly`); `Stats.ClockGoingBackBreaksIt` shows a clock that goes back breaking it.

## Model

| member | source | states |
|---|---|---|
| `Ownership.CommentRoundTrip` | reconcile.py:32-72 | every comment written is recognised as owned, and decoding it returns exactly the sanitised source, scenario and id |
| `Ownership.CommentInjective` | reconcile.py:32-68 | two decisions share a comment if and only if they share sanitised source, sanitised scenario and LAPI id |
| `Ownership.CommentText` | reconcile.py:32-47 | a comment is the marker, the source (`local` if there is none), the scenario and the id in decimal, in this order, each trimmed and with colons turned into underscores |
| `Ownership.OwnedExactly` | reconcile.py:71-72 | a comment is Protek's if and only if it starts with the marker, whatever follows |
| `Ownership.DecodeParts` | reconcile.py:50-63 | missing parts of an owned comment read as empty, and extra colons belong to the last part |
| `Ownership.NormalizeExact` | reconcile.py:144-157 | for every text, the normal form is the family-aware one if and only if no suffix of the other family was dropped |
| `Ownership.NormalizeConflatesNetworks` | reconcile.py:152-157 | every IPv6 /32 network has the normal form of its base address although the two differ |
| `Ownership.NormalizeIgnores` | reconcile.py:144-157 | letter case and surrounding white space do not matter to the normal form |
| `Diff.IndexWanted` | reconcile.py:107-113 | the first loop builds the first-wins, insertion-ordered index of trimmed values, skipping blank ones |
| `Diff.IndexOwned` | reconcile.py:115-123 | the second loop builds the last-wins index of owned entries by normal form and counts the foreign ones |
| `Diff.CollectAdds` | reconcile.py:126-131 | the third loop selects, in order, the wanted values whose normal form is not owned |
| `Diff.CollectRemovals` | reconcile.py:134-139 | the fourth loop selects one id per owned normal form that nobody wants |
| `Diff.Reconcile` | reconcile.py:87-141 | the four loops together compute the specified diff |
| `Diff.AddsExact` | reconcile.py:107-131 | the additions are exactly the wanted values not owned, each once, with the comment of the earliest decision asking for it |
| `Diff.RemovalsExact` | reconcile.py:115-139 | exactly one removal per owned normal form nobody wants: the last listed entry; nothing foreign is ever proposed |
| `Diff.AddedExactly` | reconcile.py:107-131 | an address is proposed for adding, once, if and only if a decision asks for it and no entry with the marker has its normal form |
| `Diff.AddedComment` | reconcile.py:107-131 | it carries the comment of the earliest decision whose trimmed value it is |
| `Diff.RemovedExactly` | reconcile.py:115-139 | an entry is proposed for removal if and only if it has the marker, no decision asks for its normal form, and it is the last listed of its normal form |
| `Diff.CountsExact` | reconcile.py:117-131 | additions and unchanged addresses together are the distinct addresses asked for, and the foreign counter counts the entries without the marker |
| `Diff.NetworkNeverAdded` | reconcile.py:125-131 | while an entry for the base address is owned, the IPv6 /32 network is never proposed for adding |
| `Diff.NetworkNeverRemoved` | reconcile.py:133-139 | while the base address is wanted, no owned entry of the network's normal form is proposed for removal |
| `Target.AddressList.Add` | bouncers/mikrotik_adapter.py:95-116 | adding an address already listed, by whomever, changes nothing; otherwise one entry under a fresh id |
| `Target.AddressList.Remove` | bouncers/mikrotik_adapter.py:117-138 | removing an id that is gone changes nothing |
| `Target.AddressList.Snapshot` | reconciler.py:228-239 | the listing is the listed entries, or nothing when the snapshot raised or the target is not configured |
| `Target.AddressList.Apply` | bouncers/mikrotik_adapter.py:75-143 | adds then removals, each failing on its own; the errors are the operations that failed |
| `Target.AddressList.RunOneBouncer` | reconciler.py:213-293 | snapshot, diff and capped apply leave the list as the cycle function says; a dry, unconfigured or unconnected cycle leaves it alone; the outcome flag, the counters and the number of errors are exact |
| `Target.CycleShape` | reconciler.py:259-288 | a cycle only adds owned entries under fresh ids and only drops owned, planned ones; no entry is rewritten |
| `Target.FailedSnapshotRemovesNothing` | reconciler.py:228-239 | a cycle whose snapshot failed, or came back empty, removes nothing |
| `Target.InertCycle` | reconciler.py:266-287 | a dry cycle, one of an unconfigured target and one that cannot connect leave the list as it was |
| `Target.InertRun` | reconciler.py:266-287 | a run of such cycles and operator edits is the edits alone |
| `Target.CycleRemoves` | reconciler.py:278-281 | a cycle that pushes removes exactly the planned removals within the cap that do not fail |
| `Target.CycleAdds` | reconciler.py:277-281 | what a cycle adds was planned within the cap and listed by nobody when the cycle began, not even by an entry it removes |
| `Target.ListingExactly` | reconciler.py:228-239 | the snapshot lists exactly the entries the firewall showed |
| `Target.ForeignUntouched` | reconcile.py:116-139 | over any run of cycles with operator edits between them, with any desired sets, caps, dry runs, snapshot failures and errors, the foreign entries are exactly what the operator's edits alone make of them |
| `Target.CreatedEntriesStayOurs` | reconcile.py:32-72 | over any run of cycles, whatever is added is recognised as owned, whatever disappears was owned, and nothing is rewritten |
| `Interleaving.CycleIsMoves` | reconciler.py:227-288 | undisturbed, one look at the list followed by its operations one by one is exactly one cycle |
| `Interleaving.ForeignExactly` | reconciler.py:227-288 | with operator edits at any moment, also between a cycle's snapshot and its operations, the foreign entries are at all times what the operator's edits alone make of them if and only if no operation removes an entry that has become foreign |
| `Interleaving.StealsExactly` | reconciler.py:227-288 | from an idle start a move takes a foreign entry if and only if it carries out a removal that the last look planned for an entry of Protek's, and the operator's last edit of that entry since made it foreign |
| `Interleaving.TakeoverIsLost` | reconciler.py:227-288 | such a run, from a list with one owned entry: look, takeover, removal; the operator's entry is gone |
| `Convergence.StaleShrinks` | reconciler.py:266-287 | no live cycle makes an entry stale, and with working removals the stale set strictly shrinks whatever the adds do |
| `Convergence.MissingShrinksExactly` | reconciler.py:266-287 | a live cycle makes progress on missing addresses if and only if its first `cap` proposals are not all listed already, whatever the firewall takes for the same address |
| `Convergence.PendingShrinks` | reconciler.py:268-278 | while the firewall may refuse fewer addresses than the cap, every cycle gets another address owned that it cannot refuse |
| `Convergence.ContestedIsColliding` | reconciler.py:268-278 | where the firewall's equality respects the normal form, the addresses it may refuse are exactly those foreign entries hold |
| `Convergence.RunMeasures` | reconciler.py:259-288 | over a run, the stale entries and the addresses still to be owned each reach zero or have dropped by the number of cycles |
| `Convergence.Converges` | reconciler.py:259-288 | if the firewall may refuse fewer than `cap` wanted addresses, a run as long as the two backlogs leaves nothing stale and owns every address it cannot refuse |
| `Convergence.ConvergedProposes` | reconcile.py:125-139 | from then on no removal is proposed, and only additions the firewall may refuse are |
| `Convergence.GoodRunExists` | reconciler.py:259-288 | runs of the kind the convergence theorem speaks of exist from every table, at every length |
| `Convergence.SettledStays` | reconcile.py:125-139 | once there, only colliding adds are proposed, no removal is, and a cycle changes nothing |
| `EndToEnd.TargetHoldsWhatStands` | reconciler.py:451-609 | after completed pulls and a run of working cycles as long as the backlog, all a target owns is called for by a decision that stands, clears both gates and passes its filter; where its size cap spares all, it owns exactly that, apart from addresses the firewall may refuse |
| `Convergence.BlockedForever` | reconciler.py:268-278 | once the first `cap` proposals are all held by foreign entries, no number of further cycles adds anything |
| `Starvation.ReachesEveryoneExactly` | reconciler.py:259-288 | for a fixed desired list, a run as long as the backlog owns every address no foreign entry holds, if and only if every missing normal form has fewer than `cap` unowned colliding addresses before it, not counting those an earlier missing address of their normal form settles |
| `Starvation.ObstructedStarves` | reconciler.py:268-278 | behind a whole batch of such obstacles an address stays missing however long the run |
| `Starvation.OneForeignEntryStarves` | reconciler.py:268-278 | the smallest starving list: one foreign entry, a cap of one, and that address asked for first |
| `Starvation.OrderMatters` | reconcile.py:107-113 | the same addresses in the other order are unobstructed, although as many collide |
| `Selection.SortDescends` | reconciler.py:442-447 | the sort is by LAPI id, newest first |
| `Selection.SortPermutes` | reconciler.py:442-447 | the sort keeps every decision, with multiplicity |
| `Selection.SortStable` | reconciler.py:442-447 | decisions with equal ids keep their order |
| `Selection.FilterExactly` | reconciler.py:402-448 | everything kept was asked for and meets every filter; kept and dropped make up the passing decisions; nothing kept is older than anything the cap drops; a positive cap bounds the size and is filled when it bites; a cap that does not bite changes nothing |
| `Selection.OpenKeepsAll` | reconciler.py:392-400 | a filter with nothing set keeps the list as it is |
| `Selection.OriginsKeep` | reconciler.py:402-409 | origin patterns keep what matches one of them, exclusions drop what matches one, and an exclusion beats a pattern |
| `Selection.FieldsKeep` | reconciler.py:411-440 | source names, the scenario pattern and the minimum reputation each look at their own field |
| `Selection.SettingsCombine` | reconciler.py:402-440 | a filter keeps what each of its settings alone keeps |
| `Selection.NegativeCap` | reconciler.py:442-447 | a negative cap drops that many of the oldest |
| `Selection.CapBoundsTarget` | reconciler.py:442-448 | a target with nothing stale for a capped list owns at most `max_entries` distinct normalised addresses |
| `Gates.MatchesWhitelist` | scenarios_admin.py:309-335 | the first matching rule is returned, and none exactly when no rule matches |
| `Gates.IpRuleDrops` | scenarios_admin.py:309-335 | an address rule drops exactly the decisions for that address |
| `Gates.CidrRuleDrops` | scenarios_admin.py:309-335 | a network rule drops exactly the decisions whose address lies in the network |
| `Gates.AsnRuleDrops` | scenarios_admin.py:309-335 | an ASN rule drops exactly the decisions whose cached ASN is known and equal up to case |
| `Gates.CountryRuleDrops` | scenarios_admin.py:309-335 | a country rule drops exactly the decisions whose cached country is known and equal up to case |
| `Gates.RulesLookAtOneField` | scenarios_admin.py:309-335 | no kind of rule depends on the cached field of another kind |
| `Gates.ManyRulesDrop` | scenarios_admin.py:309-335 | several rules drop exactly what one of them alone drops |
| `Gates.LookupGeo` | reconciler.py:527-546 | the 900-item chunks build exactly the maps of one unchunked query |
| `Gates.RecordRows` | reconciler.py:584-599 | one chunk extends the status map to the addresses of that chunk |
| `Gates.LookupStatus` | reconciler.py:573-599 | the chunked lookup maps each listed address with a row to the status of its highest-id row |
| `Gates.StatusMapUnique` | reconciler.py:573-599 | there is only one such map, so chunking changes nothing |
| `Gates.DropWhitelisted` | reconciler.py:524-562 | exactly the decisions no active rule matches remain, in order |
| `Gates.QueueNewcomers` | reconciler.py:573-607 | a pending row is queued for exactly the candidates that had no row |
| `Gates.DesiredFromDb` | reconciler.py:524-609 | the whole gate: the surviving decisions and the new queue |
| `Gates.QueueAllExact` | scenarios_admin.py:384-396 | queueing keeps ids ascending, approves nobody, and gives every candidate a row |
| `Gates.QueuedRows` | reconciler.py:602-607 | every row queued is pending, for a candidate whose address had no row, with its LAPI id |
| `Gates.QueueSettles` | reconciler.py:602-607 | a second pass over the same candidates queues nothing |
| `Gates.GatedExact` | reconciler.py:550-608 | a decision passes the gates if and only if no rule matches it and, in approval mode, it is approved |
| `Gates.ApprovalExactly` | reconciler.py:564-608 | in approval mode a decision no rule drops passes if and only if some queue row for its address is approved |
| `Gates.GatedPush` | reconciler.py:524-609 | every address proposed to any target comes from a mirrored decision that passed both gates, with that decision's comment |
| `Mirror.ExecOwn` | poller.py:804-837 | a statement acts on its own source's rows by those rows alone |
| `Mirror.ExecOther` | poller.py:705-766 | a statement changes no other source's rows or sightings |
| `Mirror.PartsDetermine` | db.py:51-74 | the per-source parts determine both tables |
| `Mirror.FinishBurials` | poller.py:710-721 | burying a query's answer one row at a time, in any order, buries exactly those rows |
| `Outcome.BootstrapLeaves` | poller.py:695-734 | a full pull leaves every reported identity active with the texts of its last report and its first sighting, buries every other active row, leaves the rest, and marks exactly the reported addresses as seen |
| `Outcome.DeltaLeaves` | poller.py:736-766 | a delta leaves added identities with their last report, active unless its id is deleted too, buries the other active rows with a deleted id, leaves the rest, and marks exactly the added addresses as seen |
| `Federation.RunView` | poller.py:249-265 | what a source sees of any interleaving is its own events run alone |
| `Federation.SameEventsSameState` | poller.py:249-265 | interleavings of the same per-source events end in the same state |
| `Federation.ParallelIsSerial` | poller.py:249-265 | every interleaving of statements, query answers and crashes equals running the sources one after another, in any order |
| `Federation.CompleteOutcome` | poller.py:695-766 | when all pulls have completed, each source's rows are what its program computes alone |
| `Federation.OutcomeUnique` | poller.py:249-265 | any two complete runs, with any schedules and query answer orders, give the same tables |
| `Federation.BootstrapMidway` | poller.py:705-721 | at every statement boundary, whatever interleaves or crashes, a ban live before and present in the new pull is live |
| `Federation.BootstrapEnds` | poller.py:695-734 | at the end the source's active bans are exactly the pull |
| `History.MirrorRefinesHistory` | poller.py:695-766 | after a bootstrap and any deltas an identity is active if and only if its most recently reported id has not been reported deleted since, and its row carries that id; the history is read off the reported data alone |
| `History.FederatedMirror` | poller.py:249-265 | the same for each source of a federation, however the pulls interleave |
| `History.DesiredIsWhatStands` | reconciler.py:471-483 | once the pulls have completed, a value and scope is desired if and only if it stands in a pulled source's history or was active in a source that is not pulled |
| `History.OneRowPerIdentity` | db.py:65-73 | after a bootstrap and any deltas the rows are those there before plus exactly one per identity ever reported, however many re-bans |
| `Poller.Puller.Bootstrap` | poller.py:695-734 | the loops of a full pull compute the bootstrap program and leave what a full pull leaves; other sources are as they were |
| `Poller.Puller.StreamApply` | poller.py:736-766 | the loops of a delta compute the delta program and leave what a delta leaves: no active row has a deleted id; other sources are as they were |
| `Poller.Puller.PullSource` | poller.py:641-646 | the first successful pull of a source is a bootstrap, later ones are deltas, each with its outcome and count |
| `Stats.WritesKeepOrder` | poller.py:804-837 | writes whose sources' clocks never go back keep first seen at or before last seen |
| `Stats.QueriesAgreeExactly` | api_v1.py:349-360 | the two counts agree for every cutoff if and only if no row was last seen before it was first seen |
| `Stats.FastCountIsRight` | api_v1.py:349-360 | after any such writes the fast seven-day count is the simple one |
| `Stats.ClockGoingBackBreaksIt` | api_v1.py:349-360 | one upsert stamped earlier makes the fast count too small |
| `EnvFile.EditLines` | connection.py:347-358 | the loop over lines replaces first definitions, drops later ones, and remembers which keys it saw |
| `EnvFile.PrepareEnv` | connection.py:340-365 | both loops together produce the specified text |
| `EnvFile.LinesBack` | connection.py:344-365 | lines written out are read back as they were |
| `EnvFile.DefineKey` | connection.py:325-331 | a written definition is recognised as defining its key |
| `EnvFile.PlainLineDefines` | connection.py:325 | a name, white space and an equals sign define that name, whatever white space stands before |
| `EnvFile.ExportLineDefines` | connection.py:325 | so does `export` before the name |
| `EnvFile.KeyShape` | connection.py:325 | a line defines a name only in these two shapes |
| `EnvFile.OtherLineDefinesNothing` | connection.py:325 | a comment or any line that does not start with a name defines nothing |
| `EnvFile.EditIsLawful` | connection.py:340-365 | for any text and admissible values each written key has exactly one definition, every other line survives in order, written keys read back their values and all other keys read as before |
| `EnvFile.WritingTwice` | connection.py:340-365 | writing the same values again gives the same text |
| `EnvFile.KeepsItsPlace` | connection.py:347-358 | the first definition of a written key is replaced where it stands, behind the same other lines |
| `EnvFile.AppendsAtTheEnd` | connection.py:359-361 | keys no line defines are appended at the end, in the order given |
| `EnvFile.WrittenIsReadText` | connection.py:340-365 | what is written holds no carriage return, so it is read back unchanged |
| `EnvFile.QuotedValueReads` | connection.py:328-331 | a reader that takes what stands between single quotes reads every written value |
| `SettingsSync.RunKeepsInv` | connection.py:385-478 | the protocol invariant holds after every interleaving of one save at a time, its failures, hand edits at any moment, restarts and consumer steps |
| `SettingsSync.KeysCoverTheFile` | connection.py:385-412 | whoever has marked the current stamp and read the recorded keys has read every key committed with that file |
| `SettingsSync.NoLostSave` | connection.py:397-406 | a completed save leaves its values in the file and commits its keys; it adds exactly its values to the file it replaces if and only if that file and the one it read agree outside its keys; only saves and hand edits change the file |
| `SettingsSync.BaseWasRead` | connection.py:397-399 | the file a save starts from is the one that was there when it began |
| `SettingsSync.EditDuringSaveIsLost` | connection.py:397-406 | an edit between a save's reading and its swap is lost, whatever it wrote |
| `SettingsSync.OvertakenCallReadsAgain` | connection.py:447-466 | a file change landing anywhere in a call leaves that consumer behind however the call ends, and its next call reads again |
| `SettingsSync.EveryoneAgrees` | connection.py:435-478 | once every consumer has completed a call begun after the last change, every environment has the file's value of every recorded key in it, and every consumer has acted on exactly those values, restarts included |
| `SettingsSync.AgreesExactly` | connection.py:385-478 | after any run, a process whose consumers have all taken up the file agrees with it if and only if what saves left in its environment since the last change does |
| `SettingsSync.FailedSaveTears` | connection.py:397-412 | a save that fails after its environment write leaves its process in agreement with the file if and only if it brought nothing new for a committed key in the file, and consumers that have seen the file do not look again |
| `SettingsSync.UnrecordedStays` | connection.py:385-478 | over any run a variable outside the recorded keys changes in an environment only when that process restarts |
| `SettingsSync.Host.SyncFromFile` | connection.py:435-478 | uninterrupted, the call is the five protocol steps; it sets this process's recorded keys to the file's values and touches no other variable, process or consumer, and reports a change exactly when the values it acted on before differ |
| `SettingsSync.Host.Save` | connection.py:385-406 | uninterrupted, the save is the four protocol steps and leaves row, environment and file with the new values and every other variable alone |
| `Firewall.ScanTable` | blocking.py:97-118 | one table's loop reports exactly the list-dropping rules outside output and postrouting, with their shadowing |
| `Firewall.AnalyzeFamily` | blocking.py:92-143 | the loops compute the specified verdict, coverage and custom chains |
| `Firewall.ReportsExact` | blocking.py:99-118 | a report describes a list-dropping rule, and every such rule has its report |
| `Firewall.ShadowedNeverReached` | blocking.py:84-118 | whatever the matchers and other actions mean and wherever a packet enters, jumps included, it never meets a rule with an earlier unconditional accept in its chain |
| `Firewall.VerdictExact` | blocking.py:120-135 | blocking, unverified or silent, and each covered direction, in terms of live rules on the directions' paths |
| `Firewall.CoversExactly` | blocking.py:42-47 | a chain covers a direction if and only if it is on the path of that direction's packets |
| `Firewall.StatusExactly` | blocking.py:120-135 | which of none, disabled, shadowed, unverified and blocking the verdict is, in terms of the rules |
| `Firewall.CustomChainsExactly` | blocking.py:137-143 | a custom chain is named if and only if a live rule sits in it and it is on no direction's path |
| `Firewall.ReportsFaithful` | blocking.py:99-118 | every report gives its rule's table, position, chain and action, and whether it is enabled, shadowed and in a chain every packet traverses |
| `Firewall.SilentVerdictSound` | blocking.py:120-135 | under none, disabled or shadowed no list-dropping rule outside output and postrouting ever fires |
| `Firewall.LiveRuleDrops` | blocking.py:96-135 | a listed packet that meets a live rule's other matchers and whose walk no earlier rule of the chain ends is dropped, through any depth of jumps into chains it leaves by their end or by a return |
| `Firewall.CoverageSound` | blocking.py:96-135 | a direction is covered if and only if a live rule sits on its path, dropping every listed packet that meets its matchers and gets to it |
| `Firewall.PrependedDropBlocks` | blocking.py:96-135 | an enabled list-drop put first in raw prerouting always gives blocking with both directions, and with no other matcher drops every listed packet |
| `Firewall.ConditionalAcceptGoesUnseen` | blocking.py:84-89 | behind an accept for the list itself the verdict is still blocking although no listed packet is dropped |
| `Firewall.DropsEveryListedExactly` | blocking.py:84-135 | a chain without enabled jumps drops every listed packet, whatever matchers and other actions mean, if and only if some enabled block rule asks for list membership at most and every other enabled rule before the first such rule is covered by an earlier block rule |
| `Firewall.DropsEveryListedTest` | blocking.py:84-135 | jumps and returns included, a chain drops every listed packet in every world if and only if it does in each of the finitely many worlds where just the matchers of some set of rules hold |
| `Firewall.TruthIsReported` | blocking.py:96-135 | a chain that truly drops every listed packet by rules that name the list is always reported as blocking, with its directions covered |
| `Firewall.QuietExact` | blocking.py:146-197 | a target is blocking without warnings if and only if both directions are covered and no IPv6 gap remains |
| `Firewall.WarningsExactly` | blocking.py:161-196 | each warning, and the IPv6 gap, in terms of what is covered |
| `Firewall.TruthyExactly` | blocking.py:73-74 | a flag is set by true, yes or 1, in any case and with white space around it, and by nothing else |
| `Firewall.EnabledExactly` | blocking.py:105 | a rule is enabled if and only if neither its disabled nor its invalid flag is set |
| `Firewall.ActionsExactly` | blocking.py:39-40 | a rule without an action accepts; drop, reject and tarpit block; nothing else does either |
| `Firewall.SummaryExact` | blocking.py:279-289 | the summary gives the worst status and names a target that has it; it is blocking and not partial if and only if every target is fully covered |
| `Firewall.WorstIsFirst` | blocking.py:279-289 | of several targets with the worst status the first is named |
| `TokenBuckets.TokenBucket.constructor` | ratelimit.py:73-83 | a new bucket is full, with clamped capacity and rate |
| `TokenBuckets.TokenBucket.Acquire` | ratelimit.py:85-104 | the refill, the grant and the new state, granted exactly when the refilled tokens cover the request |
| `TokenBuckets.TokenBucket.Record429` | ratelimit.py:106-109 | tokens are emptied and the penalty set; the refill clock stays |
| `TokenBuckets.TokensBounded` | ratelimit.py:85-109 | tokens stay between zero and the capacity over every run |
| `TokenBuckets.GrantExactly` | ratelimit.py:85-104 | a request is granted if and only if what was there and what flowed in since, up to the capacity, covers it; a grant takes what was asked for and a refusal nothing |
| `TokenBuckets.WaitingSuffices` | ratelimit.py:90-104 | outside a penalty a request the bucket can hold is granted once the refill alone covers it |
| `TokenBuckets.PenaltyEnds` | ratelimit.py:85-109 | a penalty halves the rate for exactly five minutes |
| `TokenBuckets.AnyStretch` | ratelimit.py:90-104 | in any stretch of any run grants total at most the capacity plus rate times the stretch's length |
| `TokenBuckets.PenaltyBound` | ratelimit.py:85-109 | until a penalty ends, grants since its 429 total at most half the rate times the time since the last refill before it |
| `TokenBuckets.DrainIsNotFinal` | ratelimit.py:106-109 | a call in the same instant as a 429 is granted if and only if half the rate since the last refill covers it |
| `Alerting.Board.Tick` | alerting.py:275-317 | the loop moves every rule that could be evaluated by its own check, leaves crashed ones alone, and sends notices in rule order |
| `Alerting.FiringExact` | alerting.py:281-310 | the stored flag is set if and only if the last N evaluated ticks matched and the last was not silenced |
| `Alerting.SinceExactly` | alerting.py:294-310 | the stored start time is that of the firing notice if it was the last notice, and empty otherwise |
| `Alerting.NoticesExact` | alerting.py:289-305 | a firing notice goes out exactly when the rule comes to stand, a resolved one exactly at an unsilenced non-match right after it stood |
| `Alerting.ResolvedOncePerFiring` | alerting.py:289-305 | two resolved notices have a firing notice between them |
| `Alerting.FiringOncePerSpell` | alerting.py:289-305 | two firing notices have a resolved notice or a silenced tick between them |
| `Alerting.BoardRefinesHistory` | alerting.py:268-317 | over any run of ticks each rule's row is the state of its own evaluated history |
| `Alerting.NoticesRefineHistory` | alerting.py:268-317 | over any run of ticks the notices sent about a rule are, in order, those of its own evaluated history |
| `Retention.CutoffExact` | retention.py:59-65 | the cutoff is the id with exactly `cap` newer ones, and exists if and only if there are more than `cap` |
| `Retention.Store.Drain` | retention.py:68-76 | what goes is an oldest part of what was prunable, all of it if the loop ends by itself |
| `Retention.Store.Prune` | retention.py:97-112 | only tombstones go, never one of the newest `cap` or one a pending approval lists; with room in the budget nothing else stays |
| `Retention.SurvivesWhileInUse` | retention.py:97-112 | with other writers between batches, a row that is active, listed or newer than the cutoff at each batch survives |
| `Retention.NewestSurvive` | retention.py:97-112 | whatever else happens during a sweep, the newest `cap` tombstones it found survive it |
| `Retention.SweepLeaves` | retention.py:59-112 | with nobody else writing and more batches than tombstones, a sweep leaves exactly the newest `cap` and the listed ones |
| `Approvals.QueuedByLapiId` | reconciler.py:602-607 | queueing lists the LAPI id of every newcomer as its decision id |
| `Approvals.AwaitedSurviveExactly` | retention.py:97-111 | a full sweep leaves every decision a pending approval was queued for, by address and LAPI id, if and only if each such row outside the newest `cap` has a row id that is itself listed |
| `Approvals.WrongRowIsSpared` | retention.py:97-111 | whenever a row id differs from its LAPI id, a full sweep deletes the row the queued approval is for and keeps the row that bears the LAPI id instead |
| `Watchdog.Flags.CheckAndAlert` | disk_watchdog.py:274-301 | both levels' notices and flags, critical first, flags unchanged where saving fails |
| `Watchdog.AlertsAreSeparated` | disk_watchdog.py:286-301 | two alerts at a level have a recovery between them, at a sample more than five points below the threshold |
| `Watchdog.RecoveriesAreSeparated` | disk_watchdog.py:286-301 | two recoveries have an alert between them |
| `Watchdog.NoAlertIsLost` | disk_watchdog.py:274-301 | however often saving fails, a sample at or over the threshold alerts, or an earlier one did and no recovery was saved since |
| `Watchdog.FlagExactly` | disk_watchdog.py:286-301 | with working saves a flag is what the last sample at or over the threshold, or more than five points below it, says |
| `Watchdog.NestedStep` | disk_watchdog.py:286-301 | one call keeps that implication if and only if it does not save one flag and lose the other at a critical alert or a warning recovery |
| `Watchdog.NestedExactly` | disk_watchdog.py:274-301 | over a run the implication holds after every call if and only if no call does that |
| `Watchdog.LevelsAreIndependent` | disk_watchdog.py:286-301 | each flag of the pair moves as its own level does |
| `Watchdog.CriticalImpliesWarn` | disk_watchdog.py:286-301 | with working saves the critical flag implies the warning flag, even with changing thresholds |
| `Watchdog.LostWriteBreaksIt` | disk_watchdog.py:280-301 | both ways of breaking it happen from a fresh start: a critical alert with its warning lost, a warning recovery with its critical recovery lost |
| `Lockout.LoginGate.RecordFailure` | auth.py:136-156 | the attempt count and the lock, for this address only |
| `Lockout.LoginGate.ClearFailures` | auth.py:184-189 | the address's row is gone, others stay |
| `Lockout.LoginGate.Login` | app.py:889-912 | admitted exactly with good credentials and no lock; a locked attempt changes nothing; other addresses are untouched |
| `Lockout.FailuresInWindow` | auth.py:117-156 | checked failures from one address in a window number at most the allowed attempts plus one per full lockout period in it, from any starting state |
| `Lockout.FewerNeverLock` | auth.py:136-150 | fewer failures than allowed never lock, and all are counted |
| `Lockout.FailureLocks` | auth.py:136-150 | from the allowed number on every checked failure locks the address for exactly one lockout period |

## Left out

- `run_once`: the fold of counters over targets, thread timeouts and the path with no target, where `target_state` is unbound; its members would be sums.
- Firewall entry ids are abstract and unique; the v4/v6 prefix of ids and the split into two RouterOS resources are not modelled.
- The firewall's own notion of "same address" is a parameter of every theorem.
- `Starvation.ReachesEveryoneExactly`: for a firewall that takes no text in play for a wanted address of another normal form; one that does can refuse an address because of an entry of Protek's own.
- Other adapters than the MikroTik one; their apply phase is taken to have the same idempotent semantics.
- Case folding is ASCII only, in address normalisation and in whitelist ASN and country comparison.
- Glob, regular-expression, CIDR and reputation tests are given predicates; expiry of whitelist rules and silences is decided outside.
- The confidence threshold above one (the subquery over `ip_sources`) and the per-group minimum of scenario, origin, source and id.
- Surrogate row ids of the mirror tables; pruned rows are modelled separately in `Retention` and `Approvals`.
- `Stats.WritesKeepOrder`: the refreshing writes of the API and the ASN detector keep more old columns than the poller's; only the timestamps and the burial mark matter here.
- `Retention.Store.Prune`: the push log's sweep is the same loop with every row prunable and none listed; the wall clock is the number of loop passes it allows.
- `EnvFile.EditIsLawful`: readers are line based, so quoted values that span lines are not modelled. With no file, no lines and no values the code writes one blank line.
- `SettingsSync.RunKeepsInv`: saves do not overlap, each file change has a fresh stamp, reads of an existing file succeed, and a consumer's calls do not overlap, as with synchronous workers; the `local` source row is not part of the state.
- `Firewall.AnalyzeFamily`: packet counters and comments of rules are not reported, and lists the code sorts are sets.
- `Firewall.DropsEveryListedExactly`: chains with an enabled jump are left to `Firewall.DropsEveryListedTest`, which tests sets of rules rather than single ones.
- `TokenBuckets.TokenBucket.Acquire`: token counts are exact reals, and the consumed and denied logs are not kept.
- `Alerting.Board.Tick`: messages, levels and delivery channels of notices.
- `Lockout.LoginGate.Login`: attempts from one address do not overlap, and stored times always parse.
- The web interface, REST and GraphQL views, onboarding, single sign-on, API tokens, backups, bundles, peers, intelligence providers and metrics.
