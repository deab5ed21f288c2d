# Verification of the Seerr backend's core

A Dafny model of the parts of `backend-rs` that hold state, protocols and exact arithmetic, and proofs about them.
`dafny verify dfyconfig.toml` checks everything. One module models one component:

- **Requests** (`LifecycleRows`, `Lifecycle`, `LifecycleSaves`, `LifecycleCode`, `LifecycleRuns`, `LifecycleSeasons`,
  `LifecycleOutcomes`, `LifecycleSends`, `LifecycleLaws`, `LifecycleLate`, `Removal`).
  The database is maps of requests and media. Whether a database call succeeds, whether an outside step goes on, and
  the clock come from an `Oracle` by a running call number, so a lemma for every oracle holds whatever Radarr, Sonarr
  and the database answer. A transaction commits or leaves everything. `LifecycleCode.Lc` has the code's methods, each
  proved equal to a function of entity and world; the theorems are about those functions: every save ends and stays
  bounded, writes only what differs, and is idempotent; an approved request's one add starts, and it ends COMPLETED or
  FAILED, under exact conditions, and every decision reaches its season and episode rows; over every run an APPROVED series request keeps its media
  underway, and nobody resets a season another active request lists. Where the code falls short of that (movies,
  episode rows, failed parent updates, and in `LifecycleLate` media rows read before another step commits), lemmas
  give the exact condition and an example.
- **Calendar** (`Clock`, `WallClock`): civil dates both ways, date texts and parsers, wall time across offset changes.
- **DNS** (`DnsQuery`, `DnsCache`, `DnsLookup`): the query builder and answer parser against an encoder of RFC 1035
  messages, the stamp-based cache, and what a lookup that misses it stores.
- **One LRU list** (`Lru`): the specification that both `DnsCache.Cache` and `ImageMemory.HotImages` refine.
- **Rate limits** (`Rps` in `RpsWindow.dfy`, `RpsCallers`, `RateGate`): the pruned window against the full history, its
  callers in every interleaving; the shared 429 gate as a state machine over every interleaving of clients.
- **Sonarr** (`SonarrWrites`, `EpisodeOrder`): the two write protocols, and season counting across two numberings.
- **Printers and stores** (`Icu`, `ListUrl`, `Ranges`, `LogFile`, `LogRuns`, `ImageTrim`), over the helpers in `Text`
  and `Sorting`.

Where a property is not true of the code on all inputs, a lemma states exactly when it holds, and another one gives an
input on which it fails:

- signed years (`Clock.IsoTextRoundTrip`; `SignedYearIsNotParsed`), years of more than four characters
  (`Clock.TypeormToIso`; `FiveDigitYearIsNotConverted`);
- two offset changes close together (`WallClock.ShownExactly`, `EarliestExactly`, `EarliestOfTwoChanges`;
  `TwoChangesMissTheMoment`, `TwoChangesMissTheEarliest`);
- literals whose quotes pair up (`Icu.RenderOfPrinted`; `AdjacentLiteralsRunTogether`);
- a send through a gate closed since it was read (`RateGate.SendFollowsOpenRead`; `SendsThroughAClosedGate`);
- a series without a season list (`SonarrWrites.SameAsWholeBody`; `NoSeasonList`), an edit the whole body takes back
  (`WholeBodyKeepsEdits`; `WholeBodyLosesEdits`);
- a movie's decline (`LifecycleOutcomes.MovieDecline`; `MovieDeclineHappens`), seasons listed by episode rows only
  (`ListedByAnyRow`; `EpisodeRowsAreOverlooked`), a failed parent update
  (`UnderwayNeedsParent`; `LostParentUpdateHappens`);
- a step between a read and the transaction that relies on it (`LifecycleLate.StaleDecline`, `StaleApproval`,
  `StaleInsert`, `StaleRemoval`, `StaleRemovalSeason`; each with its `…Happens`);
- host names too long for DNS (`DnsQuery.NameFits`; `LongHostGetsAPacket`).

## Model

| member | source | states |
|---|---|---|
| LifecycleRows.WriteChildren | backend-rs/src/lifecycle.rs:1365-1389 | the statements for one kind of child rows leave exactly the rows whose entity row of the same id differs restamped with its status and search time, all others as stored |
| LifecycleRows.WriteRows | backend-rs/src/lifecycle.rs:1350-1391 | the stored request after the statements, and that the row itself is reported written exactly when wanted and its status or modifier differs |
| LifecycleRows.SavedThenReloadedInSync | backend-rs/src/lifecycle.rs:1141-1173 | after the statements and the reload, row and every child of the entity agree with the stored ones, for any rows and any clock |
| LifecycleRows.InSyncWritesNothing | backend-rs/src/lifecycle.rs:1350-1391 | a save of an entity that agrees with its stored request changes no row, not even a date |
| LifecycleRows.DeclineSeasons | backend-rs/src/lifecycle.rs:1214-1237 | the loop over a declined request's seasons puts back exactly the PENDING seasons it lists, first of their number, that no other active request of the quality lists as a season row |
| LifecycleCode.Lc.WriteRequest | backend-rs/src/lifecycle.rs:1141-1173 | the write's world, entity and answer for every outcome of its three database calls; valid tables stay valid and the entity's status stays |
| LifecycleCode.Lc.SaveEntity | backend-rs/src/lifecycle.rs:153-161 | a save ends, though it nests itself through the hooks, and leaves world and entity as its specification says; of itself it starts one add at most, runs the hooks twice at most and saves no deeper than one level |
| LifecycleCode.Lc.AfterUpdateHooks | backend-rs/src/lifecycle.rs:170-198 | the update hooks run all three parts whatever each of them answers |
| LifecycleCode.Lc.AfterInsertHooks | backend-rs/src/lifecycle.rs:205-231 | Sonarr is asked only after Radarr's part ended well, and the parent is updated either way; one add at most, and none beside a nested hook run |
| LifecycleCode.Lc.Radarr | backend-rs/src/lifecycle.rs:546-565 | an error marks the request FAILED in a nested save, unless its media row is gone |
| LifecycleCode.Lc.SendMovie | backend-rs/src/lifecycle.rs:567-683 | available media completes the request in a nested save; else one add starts once every earlier step succeeded |
| LifecycleCode.Lc.Sonarr | backend-rs/src/lifecycle.rs:707-726 | an error marks the request FAILED by one statement without hooks, unless its media row is gone |
| LifecycleCode.Lc.FailQuietly | backend-rs/src/lifecycle.rs:729-738 | that statement sets one stored row FAILED, if it is there, and nothing else |
| LifecycleCode.Lc.SendSeries | backend-rs/src/lifecycle.rs:740-912 | available media without an episode selection completes the request and its children in a nested save; else one add starts once every earlier step succeeded |
| LifecycleCode.ChangedMedia | backend-rs/src/lifecycle.rs:1185-1241 | the media writes one after the other make the row the parent's specification names, for every status, kind and quality |
| LifecycleCode.Lc.Commit | backend-rs/src/lifecycle.rs:1194-1258 | media row and cascaded children are committed together or not at all; a failed reload comes after the commit |
| LifecycleCode.Lc.UpdateParentStatus | backend-rs/src/lifecycle.rs:1177-1258 | the whole parent update for every outcome of its database calls |
| LifecycleSaves.SaveIsBounded | backend-rs/src/lifecycle.rs:153-198 | whatever the calls answer, a save nests at most one save inside another, runs the hooks at most twice and starts at most one add, none unless APPROVED and none beside a nested hook run |
| LifecycleSaves.InsertIsBounded | backend-rs/src/lifecycle.rs:205-231 | the same bounds for the hooks of an insert |
| LifecycleSaves.SettledSaveBounds | backend-rs/src/lifecycle.rs:546-549 | a save of a request that is not APPROVED starts nothing and nests no save |
| LifecycleSaves.WriteTouchesOnlyDiffering | backend-rs/src/lifecycle.rs:1350-1391 | whatever the calls answer, a write leaves media and other requests as they were; its own row and children change exactly where they differ from the entity in status, modifier or search time, to the entity's values and the time of the write, or nothing changes |
| LifecycleSaves.WriteNeeds | backend-rs/src/lifecycle.rs:1141-1173 | a write succeeds exactly when the read of the stored request does, and for a stored one the transaction and the reload too; it commits exactly with the first two, and reports a written row only when all succeed |
| LifecycleSaves.WriteReloads | backend-rs/src/lifecycle.rs:1141-1173 | a write without error leaves the entity its statuses and gives it the stored dates, of the row when that was to be written |
| LifecycleSaves.SaveDeepens | backend-rs/src/lifecycle.rs:153-161 | the depth that the bounds speak of counts every save |
| LifecycleSaves.QuietNeeds | backend-rs/src/lifecycle.rs:729-738 | the quiet failure is an error exactly when its call fails, and then nothing changes |
| LifecycleSaves.ParentNeeds | backend-rs/src/lifecycle.rs:1177-1258 | which calls the parent's update needs to succeed, and which of them to change the media row; before its transaction nothing changes |
| LifecycleSaves.WriteAgain | backend-rs/src/lifecycle.rs:153-161 | after a write without error, saving the reloaded entity again changes no row, runs no hook and starts no add, whatever the later calls answer |
| LifecycleSaves.SettledSave | backend-rs/src/lifecycle.rs:153-161 | saving an entity that agrees with its stored row is silent for every oracle |
| LifecycleSends.MovieAdd | backend-rs/src/lifecycle.rs:567-683 | the add of an approved movie starts exactly when the server step goes on, its media row is read and not AVAILABLE, and the step before the add goes on, whatever the calls answer |
| LifecycleSends.MovieEnds | backend-rs/src/lifecycle.rs:546-683 | with a working database a movie's send ends COMPLETED exactly when a server takes it and it is AVAILABLE, FAILED exactly when the step before the add failed and the media row is there, else APPROVED |
| LifecycleSends.SeriesAdd | backend-rs/src/lifecycle.rs:740-912 | the add of an approved series starts exactly when a server is set up, its media row is read, it is not AVAILABLE without an episode selection, and TMDB's answer, the server's choice and the step before the add go on |
| LifecycleSends.SeriesEnds | backend-rs/src/lifecycle.rs:707-912 | the same three endings for a series, a server's absence leaving it APPROVED |
| LifecycleSends.ApproveSends | backend-rs/src/lifecycle.rs:153-198 | an approval or retry, with its write and hooks: its one add starts, and the stored request ends COMPLETED, FAILED or APPROVED, exactly as those conditions say |
| LifecycleSends.InsertSends | backend-rs/src/lifecycle.rs:205-231 | the same for an auto-approved insert |
| LifecycleSends.ParentReachesChildren | backend-rs/src/lifecycle.rs:1214-1252 | the parent's update of a declined or approved series gives every stored season and episode row the request's status, and touches no request otherwise |
| LifecycleSends.SeriesChildren | backend-rs/src/lifecycle.rs:763-773 | a send that completes a series gives all its stored children COMPLETED; one that fails or starts an add leaves them |
| LifecycleSends.StatusReachesChildren | backend-rs/src/lifecycle.rs:1214-1252 | after a whole decline, approval or retry of a series every stored season and episode row has the request's status, unless it ends FAILED, when they stay |
| LifecycleSends.InsertReachesChildren | backend-rs/src/lifecycle.rs:205-231 | the same for an auto-approved insert |
| LifecycleRuns.SaveRuns | backend-rs/src/lifecycle.rs:153-198 | with a working database a save touches its own request only until the hooks bring its last status to the media row; hooks run exactly when the row differed |
| LifecycleRuns.SaveAgain | backend-rs/src/lifecycle.rs:153-198 | after a whole save with a working database, nested saves, quiet failure and cascade included, saving again writes nothing, runs no hook and starts no add |
| LifecycleRuns.ApprovedStaysUnderway | backend-rs/src/lifecycle.rs:1177-1258 | over every run of inserts (with their media row), approvals, declines, retries, removals, background saves and deleted media rows, whatever Radarr and Sonarr answer: while a series' request is APPROVED, its media's status in that quality is PROCESSING, PARTIAL or AVAILABLE |
| LifecycleRuns.NewMedia | backend-rs/src/routes/requestcreate.rs:666-703 | an insert's media write, which bumps UNKNOWN and DELETED to PENDING or creates the row, keeps every season row and takes no media of an APPROVED request from underway |
| LifecycleRuns.StepSteady | backend-rs/src/routes/requestwrite.rs:44-83 | every single step keeps that |
| LifecycleSeasons.SaveSpares | backend-rs/src/lifecycle.rs:153-198 | whatever the calls answer, a save with everything nested in it leaves other requests as they are, and every season one of them lists while active |
| LifecycleSeasons.ListedSeasonStays | backend-rs/src/lifecycle.rs:1214-1237 | whatever the calls answer, no step changes a season's status while an active request of the quality that the step is not about lists it as a season row; deleting a media row is about every request of it |
| LifecycleSeasons.ListedSeasonsStay | backend-rs/src/lifecycle.rs:1275-1344 | the same at every step of every run |
| LifecycleOutcomes.DeclineOutcome | backend-rs/src/lifecycle.rs:1202-1241 | a decline of a series' request: exactly when the media and each season go back from PENDING to UNKNOWN in its quality; everything else of them, every other media row and every other request is unchanged |
| LifecycleOutcomes.ApproveOutcome | backend-rs/src/lifecycle.rs:1196-1198 | an approval or retry ends APPROVED with its media PROCESSING unless it was underway, or FAILED or COMPLETED with all media as before; other requests stay; without a server it is APPROVED |
| LifecycleOutcomes.MovieDecline | backend-rs/src/lifecycle.rs:1199-1201 | a movie's decline resets the movie whatever other requests ask: the other APPROVED requests of it in that quality have it underway afterwards exactly when there is none |
| LifecycleOutcomes.MovieDeclineHappens | backend-rs/src/routes/requestcreate.rs:540-552 | such tables, which the duplicate check admits as it looks at the oldest request only: a decline that takes the movie from an APPROVED request |
| LifecycleOutcomes.UnderwayNeedsParent | backend-rs/src/lifecycle.rs:1181-1198 | an APPROVED request's media is underway after the parent update exactly when it was before or none of the update's calls failed |
| LifecycleOutcomes.LostParentUpdate | backend-rs/src/lifecycle.rs:179-197 | a failing parent update is swallowed: the approval stays and no media row changes |
| LifecycleOutcomes.LostParentUpdateHappens | backend-rs/src/lifecycle.rs:1189-1193 | such a run: a request ends APPROVED and its media is not underway |
| LifecycleOutcomes.EpisodeRowsAreOverlooked | backend-rs/src/lifecycle.rs:1221-1235 | a decline that resets a season another active request still lists by an episode row |
| LifecycleOutcomes.ListedByAnyRow | backend-rs/src/lifecycle.rs:1214-1237 | a season another active request lists by any row keeps its status in a decline exactly unless it was PENDING, first of its number, listed by the declined request, and the others list it by episode rows only |
| LifecycleLate.StaleDecline | backend-rs/src/lifecycle.rs:1181-1213 | with another step between the read of the media row and a series' decline's transaction, the other APPROVED requests keep their media underway exactly unless the row read was PENDING, no other request is PENDING, and there is one |
| LifecycleLate.StaleDeclineHappens | backend-rs/src/lifecycle.rs:1181-1213 | such a run: the decline reads PENDING, an approval commits, and the media goes back to UNKNOWN |
| LifecycleLate.LateSeasonIsDeclined | backend-rs/src/lifecycle.rs:1214-1237 | without a step in between, the season set from the row read is the decline's |
| LifecycleLate.StaleSeason | backend-rs/src/lifecycle.rs:1214-1237 | after an early read a decline resets a season exactly when the request lists it, the row read had it PENDING and first of its number, and no other active request lists it as a season row when the transaction runs |
| LifecycleLate.StaleApproval | backend-rs/src/lifecycle.rs:1181-1197 | after such a read an approval's own media is underway exactly unless the row read was and no longer is |
| LifecycleLate.StaleApprovalHappens | backend-rs/src/lifecycle.rs:1181-1200 | such a run: a retried movie request reads PROCESSING, another request of it is declined, and the retry leaves it UNKNOWN |
| LifecycleLate.StaleInsert | backend-rs/src/routes/requestcreate.rs:1543-1576 | with another step between an insert's plan and its write of both status columns, the series' APPROVED requests keep it underway exactly unless the plan bumps its quality and one of them is of that quality, or of the other one that the row read did not have underway |
| LifecycleLate.StaleInsertHappens | backend-rs/src/routes/requestcreate.rs:1563-1571 | such a run: a 4K request is planned, the other quality is approved, and the write brings PENDING back |
| LifecycleLate.StaleRemoval | backend-rs/src/lifecycle.rs:1286-1309 | with another step between a removal's statements and its transaction, the series' APPROVED requests that stay keep it underway exactly unless the statements set the status of a quality that one of them is of |
| LifecycleLate.StaleRemovalHappens | backend-rs/src/routes/requestedit.rs:640-652 | such a run: the removed request was alone when the statements were computed, an approved one is inserted, and the media goes to UNKNOWN |
| LifecycleLate.StaleRemovalSeason | backend-rs/src/lifecycle.rs:1310-1342 | with any steps between a removal's statements and its transaction, a season goes to UNKNOWN exactly when the tables read put back the season of its id, whoever lists it by now; for any batch of requests |
| LifecycleLate.StaleRemovalSeasonHappens | backend-rs/src/routes/requestedit.rs:640-652 | such a run: a request that lists the season is inserted in between, and the season is reset, which a removal that read later would not do |
| LifecycleLate.InsertOutcome | backend-rs/src/lifecycle.rs:205-231 | an auto-approved insert without a server leaves the request APPROVED, its media row bumped and underway, and all else as before |
| LifecycleLate.LatePlanIsInserted | backend-rs/src/routes/requestcreate.rs:688-703 | without a step in between, the planned write is the insert's media row |
| LifecycleLate.LateStatusIsParents | backend-rs/src/lifecycle.rs:1181-1213 | without a step in between, the status set from the row read is the parent update's |
| Removal.AfterRemove | backend-rs/src/lifecycle.rs:1275-1344 | the statements handed back, and the error exactly without a media row |
| Removal.Remove | backend-rs/src/routes/requestedit.rs:640-652 | deletes and statements of all removed requests in one transaction, the statements computed before it without the removed requests |
| Removal.RunAll | backend-rs/src/routes/userwrite.rs:683-699 | the statements in order change each media row as they do one by one |
| Removal.RemovalOutcome | backend-rs/src/lifecycle.rs:1286-1309 | a removal fails exactly when one of the requests has no media row; else every media they were of has, in both qualities, the status its remaining requests leave it, and no other media changes status |
| Removal.RemovalSeasons | backend-rs/src/lifecycle.rs:1310-1342 | a season goes back to UNKNOWN exactly when a removed request lists it by a season or episode row, no remaining active request of the quality does, and it was PENDING or PROCESSING |
| LifecycleLaws.ApprovedMediaColumn | backend-rs/src/lifecycle.rs:1177-1258 | over every run, the column of an APPROVED series request's quality is PROCESSING, PARTIAL or AVAILABLE |
| LifecycleLaws.ApprovalColumn | backend-rs/src/lifecycle.rs:1196-1198 | an approval that stays APPROVED sets the column to PROCESSING exactly when it was none of these, and leaves the other column and the seasons |
| LifecycleLaws.DeclineColumn | backend-rs/src/lifecycle.rs:1202-1213 | a series' decline puts its column back exactly from PENDING without another PENDING request of the media and quality |
| LifecycleLaws.DeclineSeasonColumn | backend-rs/src/lifecycle.rs:1214-1237 | and a season's exactly from PENDING when a season row of the request lists it, it is first of its number, and no other request neither DECLINED nor COMPLETED has a season row of it |
| LifecycleLaws.RemovedRequests | backend-rs/src/routes/requestedit.rs:640-652 | a removal changes nothing when a removed request has no media row, else exactly the requests asked for go |
| LifecycleLaws.RemovalColumn | backend-rs/src/lifecycle.rs:1286-1309 | a removed request's media keeps a column while a staying request of the quality is active or it is AVAILABLE or PARTIAL; else DELETED with a COMPLETED one staying, UNKNOWN without |
| LifecycleLaws.RemovalSeasonColumn | backend-rs/src/lifecycle.rs:1310-1342 | a season of a series goes back exactly from PENDING or PROCESSING when a removed request has it by a season or episode row and no staying active one does |
| LifecycleLaws.InsertColumn | backend-rs/src/routes/requestcreate.rs:666-703 | an insert's media write bumps its column from UNKNOWN or DELETED to PENDING, or creates the row PENDING in it; other columns, seasons and rows stay |
| LifecycleLaws.NothingDone | backend-rs/src/routes/requestwrite.rs:44-83 | an action on a request of another status, an insert that is not possible, a background write of a request that is gone, and a removal or deletion whose transaction fails change nothing |
| LifecycleLaws.LateSaveOutcome | backend-rs/src/lifecycle.rs:644-670 | a background save leaves its request COMPLETED or FAILED and all else as it was |
| LifecycleLaws.LateChildrenOutcome | backend-rs/src/lifecycle.rs:1141-1173 | a background write of child rows brings exactly the copy's statuses to the rows of its ids |
| LifecycleLaws.LateFailureOutcome | backend-rs/src/lifecycle.rs:729-738 | a background failure sets one request FAILED; a deleted media row takes exactly its requests along |
| Clock.DaysRoundTrip | backend-rs/src/clock.rs:37-48 | every day number gives a valid Gregorian date that converts back to it |
| Clock.DateRoundTrip | backend-rs/src/clock.rs:234-242 | every valid date converts to a day number and back |
| Clock.NextDayNumber | backend-rs/src/clock.rs:234-242 | the day after a date by the leap-year rule has the next day number |
| Clock.EpochDay | backend-rs/src/clock.rs:232-234 | 1970-01-01 is day 0, which fixes all other dates |
| Clock.FromUnixMillis | backend-rs/src/clock.rs:36-59 | the fields are a valid date and time of day |
| Clock.MillisRoundTrip | backend-rs/src/clock.rs:36-59 | the fields stand for exactly the given milliseconds |
| Clock.ParseOfIso | backend-rs/src/clock.rs:201-230 | the parser reads a printed moment as its fields, and refuses exactly signed years |
| Clock.IsoTextRoundTrip | backend-rs/src/clock.rs:71-77 | parsing the ISO text gives the same milliseconds back, exactly from year 0 on |
| Clock.ParseShapes | backend-rs/src/clock.rs:201-215 | a bare date is its first moment exactly when month and day are in range, and behind a `T` every time adds to it or spoils it |
| Clock.ParseTimeShapes | backend-rs/src/clock.rs:216-230 | a time is hours and minutes, with seconds or without, up to 23:59:59, with the first three digits of a fraction, and the `Z` it needs |
| Clock.ParseTimeFields | backend-rs/src/clock.rs:216-230 | one field, or more than three, are no time |
| Clock.SignedYearIsNotParsed | backend-rs/src/clock.rs:201-215 | such a moment: the year before year 0 |
| Clock.FiveDigitYearIsNotConverted | backend-rs/src/db.rs:2159-2167 | such a text: year 10000 |
| Clock.SqliteShapes | backend-rs/src/db.rs:2159-2177 | whatever stands around the separator: a date of ten digits or dashes and a clock of five or eight digits or colons, with three digits of milliseconds or without, turn into ISO text, and nothing else does |
| Clock.TypeormToIso | backend-rs/src/db.rs:2159-2177 | the TypeORM text turns into the text ISO printing gives, exactly while the year prints in four characters |
| WallClock.EarliestMoment | backend-rs/src/clock.rs:295-311 | for any offsets within a day that change at most once in the two days around the wall time, the result shows the wall time and is the earliest moment that does |
| WallClock.SkippedTime | backend-rs/src/clock.rs:295-311 | when no moment shows it, the wall time is read with the offset before the change, and shows later by exactly the gap |
| WallClock.ShownExactly | backend-rs/src/clock.rs:303-310 | for every zone, the result shows the wall time exactly when one of the two offsets tried is in force at its own candidate |
| WallClock.EarliestExactly | backend-rs/src/clock.rs:303-310 | for every zone, the earliest moment that shows the wall time is the result exactly when its offset is one of the two tried |
| WallClock.EarliestOfTwoChanges | backend-rs/src/clock.rs:303-310 | with two changes in the window, a wall time that some moment shows is read as the earliest one exactly unless only the offset in between shows it first and equals neither of the others |
| WallClock.TwoChangesMissTheMoment | backend-rs/src/clock.rs:303-310 | such a zone: a wall time that exists is missed |
| WallClock.TwoChangesMissTheEarliest | backend-rs/src/clock.rs:303-310 | such a zone: a later moment is found |
| WallClock.DaysThereAndBack | backend-rs/src/clock.rs:276-289 | some days back and forward again return to the start when the wall time exists on both days and the start is its first showing |
| WallClock.DaysBefore | backend-rs/src/clock.rs:276-289 | some days back is the earliest moment that shows the same wall time on that day, or shows it later by the gap when none does |
| DnsQuery.SkipName | backend-rs/src/dnsquery.rs:91-102 | the loop finds the offset past the name, or none, on every byte string |
| DnsQuery.NameEndOfEncoded | backend-rs/src/dnsquery.rs:91-102 | past every encoded name, plain or compressed, wherever it stands |
| DnsQuery.TrimDotsExactly | backend-rs/src/dnsquery.rs:64 | of the host exactly the dots at its end go |
| DnsQuery.Query | backend-rs/src/dnsquery.rs:60-75 | a packet exactly for hosts whose labels have 1 to 63 bytes, and it encodes one question of class IN for those labels, however long the name gets |
| DnsQuery.NameFits | backend-rs/src/dnsquery.rs:59-75 | for every host that gets a packet, the name is within the 255 octets of section 2.3.4 of RFC 1035 exactly when the host has at most 253 bytes without its trailing dots |
| DnsQuery.LongHostGetsAPacket | backend-rs/src/dnsquery.rs:59-75 | such a host: four labels of 63 bytes |
| DnsQuery.QuerySpellsHost | backend-rs/src/dnsquery.rs:60-102 | on every packet built, skipping the name stops 4 bytes before the end, the labels spell the host back, and id and type are the asked ones |
| DnsQuery.Parse | backend-rs/src/dnsquery.rs:115-159 | the loops read any bytes as the parser's specification does, errors in the same order |
| DnsQuery.Collect | backend-rs/src/dnsquery.rs:136-153 | the record loop gathers the asked family's records and the lowest CNAME TTL |
| DnsQuery.CapTtls | backend-rs/src/dnsquery.rs:154-157 | every record keeps its address and takes the lower of its TTL and the cap |
| DnsQuery.ParseOfEncoded | backend-rs/src/dnsquery.rs:115-159 | every well-formed message, names plain or compressed in any mix, is read as what it says: another id, truncation, an error code, an address of the wrong size, or exactly the family's addresses in order, TTLs capped by the lowest CNAME TTL |
| DnsQuery.ParseMore | backend-rs/src/dnsquery.rs:115-159 | on any bytes, what the beginning of a packet is read as, the whole packet is |
| DnsQuery.CutShort | backend-rs/src/dnsquery.rs:115-159 | a message with answers and no error in its flags is refused when cut anywhere before the end of its answers |
| DnsCache.Cache.PurgeStale | backend-rs/src/dnscache.rs:93-98 | exactly the entries that are `forceMaxTtl` old go, the others stay as they are in their order |
| DnsCache.Cache.Insert | backend-rs/src/dnscache.rs:100-114 | the stamps implement an LRU store: unique hosts, at most 500, and what goes from a full cache is the host least recently stored or answered |
| DnsCache.Cache.Lookup | backend-rs/src/dnscache.rs:142-173 | a fresh answer is younger than its TTL, a stale one is past it and younger than a positive `forceMaxTtl`, an entry past both goes; an answer makes the host the most recent and gives the entry's IPv4 addresses alone, or all with the IPv4 ones first; a fresh answer counts one hit, or one IPv4 fallback when IPv4 is asked of an entry with an IPv6 address active and IPv4 known, a stale or dropped one counts one miss, and an unknown host counts nothing |
| DnsCache.Cache.ClearHost | backend-rs/src/dnscache.rs:415-422 | only the named host goes; the empty name changes nothing |
| DnsCache.Cache.Hosts | backend-rs/src/dnscache.rs:380-389 | sorting by falling stamp lists the hosts from the most recently used on |
| DnsCache.Cache.Print | backend-rs/src/dnscache.rs:375-411 | the printed listing purges first when the cache is set up, and gives every host once, the most recently used first, with its address counts, age, time left and counters |
| DnsCache.ItemSays | backend-rs/src/dnscache.rs:390-411 | a printed host has its address counts, active address and counters, its age, and the time its TTL leaves, neither below 0 |
| DnsCache.Ttl.Entry | backend-rs/src/dnscache.rs:45-47 | the TTL of an answer without one is at least `forceMinTtl` and the default, and one of the two |
| DnsCache.Ttl.Fallback | backend-rs/src/dnscache.rs:53-58 | the fallback's TTL is the larger of a minute and `forceMinTtl`, capped by `forceMaxTtl` but never below `forceMinTtl`, and `forceMinTtl` itself without a `forceMaxTtl` |
| DnsLookup.Resolved | backend-rs/src/dnscache.rs:190-208 | no answer exactly when neither family has a record; its TTL is the lowest of all records, and each family's addresses are its records' in order |
| DnsLookup.FamiliesSplit | backend-rs/src/dnscache.rs:311-312 | the two families of a native answer are its addresses of each kind, in order |
| DnsLookup.Merge | backend-rs/src/dnscache.rs:313-321 | the known addresses stay in front, and every found one that is new follows once |
| DnsLookup.Keep | backend-rs/src/dnscache.rs:222-240 | an answer is stored as the host's most recent entry for the larger of its TTL and `forceMinTtl`, its first address of the preferred family active, goes on with the earlier entry's counters and counts a miss; a full cache loses its least recent host only |
| DnsLookup.NativeFallback | backend-rs/src/dnscache.rs:301-339 | what the system found is given in its order and stored behind the addresses already known; an empty or failed lookup stores nothing |
| DnsLookup.Resolve | backend-rs/src/dnscache.rs:269-296 | the first attempt that succeeds is stored and its addresses given, IPv4 first or alone, the native lookup comes exactly after four failures, every failed attempt is counted, the backoff sums to 0, 100, 300 or 700 ms, and the last retry prefers IPv4 |
| DnsLookup.ResolveThenLookup | backend-rs/src/dnscache.rs:247-340 | a later lookup is answered from the cache exactly while the stored answer is younger than its TTL and a positive `forceMaxTtl`, with the same addresses, or with all the native lookup found |
| Lru.StoreKeys | backend-rs/src/dnscache.rs:100-114 | a store keeps keys unique and the bound, ends with the stored key, and drops the least recent key only from a full list |
| Lru.RunIsRecency | backend-rs/src/imagecache.rs:214-239 | after any history of stores and answers the bounded list is the most recent part of all distinct keys by last use |
| Lru.KeptWhileRecent | backend-rs/src/imagecache.rs:214-239 | a key is still held exactly when fewer than the bound's number of other keys were used since its last use |
| ImageMemory.KeysDiffer | backend-rs/src/imagecache.rs:214-244 | images of different groups or cache keys have different keys |
| ImageMemory.HotImages.Remember | backend-rs/src/imagecache.rs:214-229 | the deque's keys change as an LRU store of bound 256, the image is the newest, and all others are earlier entries under other keys |
| ImageMemory.HotImages.Recall | backend-rs/src/imagecache.rs:231-239 | exactly a remembered image is answered and becomes the most recent one; nothing is lost |
| ImageMemory.HotImages.Forget | backend-rs/src/imagecache.rs:241-244 | exactly the entries of the key go, the rest in order |
| Rps.RpsWindow.Take | backend-rs/src/concurrency.rs:61-77 | the pruned window grants exactly when fewer than the limit of all grants ever lie in the last second; the wait ends when the oldest of those is a second old |
| Rps.MaxRps.Try | backend-rs/src/concurrency.rs:99-107 | one round of the limiter's loop keeps the whole history paced |
| Rps.MaxRps.Wait | backend-rs/src/concurrency.rs:99-107 | while nobody else takes a slot, a wait sleeps once at most, not at all exactly when fewer than the limit of grants are recent, and ends with its own grant |
| Rps.NoBurst | backend-rs/src/concurrency.rs:61-77 | no half-open one-second interval of a paced history holds more than the limit |
| Rps.GrantKeepsPace | backend-rs/src/concurrency.rs:61-77 | a grant keeps the history paced |
| Rps.WaitFreesASlot | backend-rs/src/concurrency.rs:70-77 | after a refusal, a take once the wait has passed finds a free slot if nobody took one meanwhile |
| RpsCallers.Turn | backend-rs/src/concurrency.rs:99-107 | a caller's turn at the limiter is a step of the callers' state machine |
| RpsCallers.Rounds | backend-rs/src/concurrency.rs:90-107 | the callers of a new limiter, in any order of arrivals, sleeps and turns, end as the state machine's run says |
| RpsCallers.TurnExactly | backend-rs/src/concurrency.rs:99-107 | a caller about to ask, or whose sleep is over, starts exactly when the last second has room or there is no limit, else sleeps until the oldest start of that second is a second old |
| RpsCallers.RefusedAgain | backend-rs/src/concurrency.rs:99-107 | in any valid state a refusal comes with exactly the limit of starts in the last second, its sleep is positive and a second at most, and a woken sleeper is refused only when another caller started since it was refused |
| RpsCallers.NoBurstOfCallers | backend-rs/src/concurrency.rs:80-107 | over every interleaving, no half-open second holds more than the limit of starts of all callers together |
| RpsCallers.SleepsAreEarned | backend-rs/src/concurrency.rs:99-107 | over every interleaving, a caller sleeps at most once more than other callers started while it waited, and never with a limit of 0 |
| RateGate.GateNeverMovesBack | backend-rs/src/anilist.rs:235-256 | under any interleaving of clients the gate's time never moves back |
| RateGate.FetchIsBounded | backend-rs/src/anilist.rs:268-295 | under any interleaving a fetch sends at most twice and sleeps at most twice `max_wait`; the second send comes only after a 429 whose `Retry-After` fits `max_wait` and has passed |
| RateGate.SendFollowsOpenRead | backend-rs/src/anilist.rs:221-232 | under any interleaving, whenever a step sends, the gate as its client last read it was open by then; the send meets a closed gate exactly when another client's closing step moved the gate past it after that read |
| RateGate.SendsThroughAClosedGate | backend-rs/src/anilist.rs:221-232 | such a run: a client that read the gate before another's 429 sends while it is closed |
| RateGate.ClientRound | backend-rs/src/anilist.rs:268-295 | a client's steps of one round, exactly: with no hit it sends as soon as the gate it read is open, or gives up when that is later than `max_wait`; a 429 moves the gate, and one short enough brings it round once more |
| RateGate.FetchedExactly | backend-rs/src/anilist.rs:268-295 | a fetch sends once exactly when there is no hit and the gate opens within `max_wait`, twice exactly when besides the first reply is a 429 that fits `max_wait`, the cache still has nothing and the gate opens in time again; when it sends, how long it sleeps and where the gate ends |
| RateGate.RateGate.Wait | backend-rs/src/anilist.rs:221-232 | a client goes on exactly when there is no gate time or it has passed, gives up exactly when it is later than `max_wait`, else sleeps exactly until it |
| RateGate.RateGate.Close | backend-rs/src/anilist.rs:235-256 | the gate takes the later of the two times; a value that is no duration changes nothing |
| RateGate.Fetch | backend-rs/src/anilist.rs:268-295 | the loop makes exactly the client's steps of two rounds at most, other clients closing the gate before each read |
| ListUrl.MatchListUrl | backend-rs/src/anilist.rs:632-677 | a text is accepted exactly when it decomposes by the regex of the comment, and user, section and list are those of its decomposition |
| ListUrl.Characters | backend-rs/src/anilist.rs:632-677 | case is ignored for the 26 ASCII letters alone; a run stops at `/`, `?` and `#`, and the rest of a text has no line end |
| ListUrl.ReadIsTheRegex | backend-rs/src/anilist.rs:632-677 | greedy reading and regex agree on every text |
| ListUrl.OneDecomposition | backend-rs/src/anilist.rs:632-633 | the regex decomposes no text in two ways |
| SonarrWrites.PatchedSeries | backend-rs/src/arr.rs:739-762 | the loop over the tags makes the patched series: monitored, missing tags once each behind the old, requested seasons monitored |
| SonarrWrites.SeriesWrites | backend-rs/src/arr.rs:772-819 | the writes of each API version in their order |
| SonarrWrites.SameAsWholeBody | backend-rs/src/arr.rs:739-819 | applied in order, the Sonarr 5 writes leave the same flag and tags as the whole body sent to Sonarr 4, and the same seasons exactly when the series has a season list |
| SonarrWrites.NoSeasonList | backend-rs/src/arr.rs:285-317 | such a series: only the whole body brings the requested season |
| SonarrWrites.EditsSurvive | backend-rs/src/arr.rs:764-771 | applied to a series edited meanwhile they never drop a tag or unmonitor anything, and still add what the request found missing |
| SonarrWrites.NoWritesLeft | backend-rs/src/arr.rs:772-819 | against their own result there are no writes left |
| SonarrWrites.WholeBodyKeepsEdits | backend-rs/src/arr.rs:739-781 | the whole body sent after an edit loses no tag exactly when every tag then there was read or is requested, and unmonitors no season exactly when every season then monitored was read monitored or is a requested one the body lists |
| SonarrWrites.WholeBodyLosesEdits | backend-rs/src/arr.rs:779-781 | such an edit: a tag and a season's monitoring are taken back |
| EpisodeOrder.SeasonsInOrder | backend-rs/src/episodeorder.rs:200-219 | the loop that fills three lists is the threefold selection |
| EpisodeOrder.SplitIsWhole | backend-rs/src/episodeorder.rs:200-219 | the three parts together are exactly the request with its repetitions, each in the request's order |
| EpisodeOrder.SplitMembers | backend-rs/src/episodeorder.rs:200-229 | a requested season is kept exactly when Sonarr has an episode of a positive TVDB id the catalog places in it, left out exactly when it has none and the catalog dates an episode of it at or before now, else unlisted |
| EpisodeOrder.SplitMoves | backend-rs/src/episodeorder.rs:200-229 | more Sonarr episodes only move seasons into kept; a later time keeps kept and only moves unlisted to left out |
| EpisodeOrder.ByTvdbKeys | backend-rs/src/episodeorder.rs:233-238 | the index has exactly the positive TVDB ids Sonarr lists, each with an episode of that id |
| EpisodeOrder.LastWins | backend-rs/src/episodeorder.rs:233-238 | of several episodes with one TVDB id the index has the last |
| EpisodeOrder.RowByEntry | backend-rs/src/episodeorder.rs:260-287 | each catalog entry of the season that Sonarr has adds one to the row's total, its file to the files, and its monitoring to the flag; no other entry changes the row |
| EpisodeOrder.AiredSeasons | backend-rs/src/episodeorder.rs:260-287 | one row for every season of the catalog, in order of first appearance, none with more files than episodes |
| EpisodeOrder.KeptWhenCounted | backend-rs/src/episodeorder.rs:200-287 | a requested season is kept exactly when its row counts an episode |
| EpisodeOrder.TotalsSum | backend-rs/src/episodeorder.rs:260-287 | the totals of all rows sum to the catalog entries Sonarr lists |
| EpisodeOrder.SeasonEpisodesOf | backend-rs/src/episodeorder.rs:173-179 | the ids are exactly those of the seasons' catalog entries |
| EpisodeOrder.MonitorAiredSeasons | backend-rs/src/arr.rs:352-419 | it fails exactly when Sonarr lists nothing or the order leaves every requested season out; else the seasons left out, and the ids asked for in catalog order |
| EpisodeOrder.MonitorsRequested | backend-rs/src/arr.rs:397-418 | asked for are exactly the unmonitored episodes Sonarr lists that the aired catalog places in a requested season |
| EpisodeOrder.WantedInOrder | backend-rs/src/arr.rs:456-466 | the wanted episodes of a fetch keep Sonarr's order |
| EpisodeOrder.ResolveEpisodes | backend-rs/src/arr.rs:449-495 | the retries take the first fetch that has every wanted episode, or lists another order, and fail exactly when there are attempts and none settles |
| Icu.Render | backend-rs/src/i18n.rs:137-194 | the index walk renders any text as the rewriting of its rest |
| Icu.ReadRun | backend-rs/src/i18n.rs:147-161 | the inner loop reads one quoted run and stops behind it |
| Icu.QuotedBrace | backend-rs/src/i18n.rs:142-161 | a quote before either brace starts a literal run that the next lone quote ends, and neither quote is printed |
| Icu.LoneCharacters | backend-rs/src/i18n.rs:142-189 | a quote before anything else is itself, and so is a closing brace, or an opening one that nothing closes |
| Icu.ArgumentBecomesItsValue | backend-rs/src/i18n.rs:165-181 | an argument, with any blanks around its name, becomes the text of the first value of that name |
| Icu.UnknownArgument | backend-rs/src/i18n.rs:165-181 | an argument no value has becomes nothing |
| Icu.MeaningByParts | backend-rs/src/i18n.rs:137-194 | what a message means: its literals verbatim and each argument's first value |
| Icu.WhitespaceCharacters | backend-rs/src/i18n.rs:176 | the blanks are the 25 characters of Unicode's White_Space |
| Icu.RenderOfPrinted | backend-rs/src/i18n.rs:137-194 | a message of literals and arguments, quotes doubled and each literal quoted in one run from its first brace, renders to the literals verbatim with the values in place exactly unless a literal with a brace stands before a rest whose print begins with an odd number of quotes; then the output is longer |
| Icu.RenderedActual | backend-rs/src/i18n.rs:137-194 | what every such message renders to: what it means, with one quote more behind each literal that clashes |
| Icu.RenderOfAlternating | backend-rs/src/i18n.rs:137-194 | so every message of alternating literals and arguments renders to what it means, for every literal text |
| Icu.AdjacentLiteralsRunTogether | backend-rs/src/i18n.rs:142-161 | such a message: two literals in a row whose quotes pair up |
| LogFile.NamesDiffer | backend-rs/src/logfile.rs:77-83 | file names of different dates or indices differ |
| LogFile.OldFiles | backend-rs/src/logfile.rs:160-184 | a file of the family is old exactly when its name's date is known and lies `keepDays` days back or more |
| LogFile.TodayIsKept | backend-rs/src/logfile.rs:160-184 | no file of the current date is old enough to prune |
| LogFile.Writer.FindOpen | backend-rs/src/logfile.rs:119-127 | the search for a file ends at the first index whose file is below `MAX_SIZE` |
| LogFile.Writer.Prune | backend-rs/src/logfile.rs:160-184 | exactly the family's outdated files go; an unreadable date removes nothing |
| LogFile.Writer.OpenFamily | backend-rs/src/logfile.rs:119-138 | the first index from the start whose file is below `MAX_SIZE` is open with the size it has, without lines of this run; only outdated files went, and every file of the date stays as it is |
| LogFile.Writer.Append | backend-rs/src/logfile.rs:109-113 | only the open file changes, by that line at its end, and the noted size stays its size |
| LogFile.Writer.WriteFamily | backend-rs/src/logfile.rs:86-115 | exactly when it rotates, to which file, and the directory it leaves; every append starts on a file below `MAX_SIZE`, only a file's first line of the run can pass it, and the date's lines read in index order are in the order written; the dates seen grow by no more than this one |
| LogFile.WrittenExactly | backend-rs/src/logfile.rs:86-138 | when a write stays in the open file: on its date while the line with its line end fits, or the file is empty; else the first file below `MAX_SIZE` from the next index, or from 0 on another date, and exactly the old files go |
| LogFile.MovesOn | backend-rs/src/logfile.rs:94-106 | moving on to a later file or another date keeps that order |
| LogFile.AppendsLast | backend-rs/src/logfile.rs:109-113 | an appended line comes last of the date's lines |
| LogRuns.LogRun | backend-rs/src/logfile.rs:86-138 | over every run of lines with dates that never go back, whatever the file system answers: the open file's date has exactly its appended lines in its files up to the open one, in the order written, and none behind it; only the first line of a file can pass `MAX_SIZE`; while everything works that date is the last one and all its lines are there |
| LogRuns.FamiliesApart | backend-rs/src/logfile.rs:77-83 | the two families' file names never coincide, and neither family's files are old files of the other |
| LogRuns.LogAll | backend-rs/src/logfile.rs:69-75 | over a run that works, both families hold every line of the last date in the order written |
| ImageTrim.ListEntries | backend-rs/src/imagecache.rs:548-602 | the listing is exactly the unexpired readable entries in order; removed are exactly the other readable directories when asked |
| ImageTrim.ListedOneByOne | backend-rs/src/imagecache.rs:548-602 | each directory in turn: an unexpired readable file is listed with its size and its access time, or its modification time when that is 0; what else can be read is invalid |
| ImageTrim.ListedOrInvalid | backend-rs/src/imagecache.rs:548-602 | every readable directory is listed or invalid, and not both |
| ImageTrim.DropIdle | backend-rs/src/imagecache.rs:636-645 | exactly the idle entries' directories go and the total is the sum of the rest |
| ImageTrim.Trim | backend-rs/src/imagecache.rs:646-656 | a front part goes, and no more of it than the target takes |
| ImageTrim.MaintainCache | backend-rs/src/imagecache.rs:620-658 | nothing kept was expired or idle, the total is the sum of what is kept, at or below the high-water mark all active entries stay, above it the most recently accessed part within the target stays, keeping the last removed entry too would exceed the target, and every readable directory is once either kept or removed as invalid, idle or trimmed |
| Ranges.Runs | backend-rs/src/lifecycle.rs:1532-1548 | the runs are sorted, disjoint and maximal, cover exactly the input items and count the distinct ones |
| Ranges.OneRunList | backend-rs/src/lifecycle.rs:1532-1548 | only one list of maximal runs covers a set of items |
| Ranges.Capped | backend-rs/src/lifecycle.rs:1585-1599 | the text is the parts joined up to the first that does not fit behind the others, and the sum of the rest counted |
| Ranges.CappedCounts | backend-rs/src/lifecycle.rs:1527-1599 | the items shown and the counted rest make up the total; the joined list stays within `EXTRA_MAX` bytes unless it is one part alone, the first when no part is empty |
| Ranges.ShownExactly | backend-rs/src/lifecycle.rs:1585-1599 | the first part is shown, and every next one exactly while the list with it stays within `EXTRA_MAX` |
| Ranges.CappedReads | backend-rs/src/lifecycle.rs:1585-1599 | the text: the shown parts, and when some are left, the number of items they stand for in decimal with the noun for one or many |
| Ranges.ListsFit | backend-rs/src/lifecycle.rs:1527-1599 | for 64-bit numbers the joined list never passes `EXTRA_MAX` bytes, and the whole text has at most 438 bytes, well under 1024 characters |
| Ranges.EpisodeRanges | backend-rs/src/lifecycle.rs:1551-1564 | the text is the capped list of the one run list that covers exactly the episodes, and at most 438 bytes long for 64-bit numbers |
| Ranges.SeasonRanges | backend-rs/src/lifecycle.rs:1567-1581 | the same for season numbers |
| Ranges.EpisodeSpelled | backend-rs/src/lifecycle.rs:1551-1564 | a run of episodes reads S, the season, E, the first episode, and for more than one a dash, E and the last, each number in decimal with two digits at least |
| Ranges.SeasonSpelled | backend-rs/src/lifecycle.rs:1567-1581 | a run of seasons reads the first, and for more than one a dash and the last, in decimal |
| Ranges.ListsOnce | backend-rs/src/lifecycle.rs:1551-1581 | order and repetition of the input do not change the text |
| Ranges.CountedRest | backend-rs/src/lifecycle.rs:1551-1581 | behind the runs shown, exactly the distinct items they do not stand for are counted |

## Left out

- LifecycleRuns.ApprovedStaysUnderway: a step is atomic and its database calls succeed; `LifecycleLate` takes decline, approval, insert and removal apart at their first read, one at a time, and `UnderwayNeedsParent` says what a failing call changes. Other splits of a step are not modelled.
- LifecycleSeasons.ListedSeasonsStay: a step is atomic; `LifecycleLate.StaleSeason` and `StaleRemovalSeason` say what an early read changes for a decline and a removal.
- LifecycleRuns.NewMedia: the replacement of an ongoing episode request (`replace_writes`), quotas, duplicates and permissions of an insert are not modelled.
- LifecycleCode.Lc.SendSeries: the deletion of media and request when no TVDB id is found is not part of the save; in the runs it is a step of its own (`Forget`), after which the rest of the save finds no media and changes nothing. TMDB, TVDB, server choice, tags and options are outside steps that go on or not.
- LifecycleCode.Lc.SendMovie: the add itself runs in the background; what it writes later is a step of a run, not part of the save.
- LifecycleCode.Lc.Commit: a transaction is one call; child statuses an error leaves half changed in memory are not modelled.
- LifecycleRuns.StepSteady: the routes' permission checks and answers are not modelled; a removal with failing deletes leaves the tables as they are.
- DnsLookup.Resolve: other lookups of the cache between its attempts are left out; so are the branch for `localhost` and the background refresh of a stale answer, which is one `Keep`.
- Rps.MaxRps.Wait: is the wait of one caller alone; `RpsCallers` has several.
- RateGate.Fetch: other clients close the gate before each of its reads only; `FetchIsBounded` and `SendFollowsOpenRead` hold for every interleaving.
- LifecycleSends.StatusReachesChildren: a request of kind `Tv` whose media row is no series is not covered.
- EpisodeOrder.MonitorAiredSeasons: TVDB's and Sonarr's answers are inputs; log lines for missing episodes are left out.
- EpisodeOrder.ResolveEpisodes: the wait for `addOptions` before it and the monitoring after it are left out.
- ImageTrim.MaintainCache: removals succeed, one clock reading serves the listing, and the flag that admits one run at a time is left out; sizes and times are integers, not doubles.
- LogFile.Writer.WriteFamily: a line is written whole or not at all; nobody else writes the family's files, and links are left out.
- LogRuns.LogAll: each family has its own view of the directory, which `FamiliesApart` allows.
- WallClock.DaysThereAndBack: chrono's representable range and its saturation are not modelled.
- Clock.IsoTextRoundTrip: i64 overflow inside the parser for years beyond the milliseconds' range is not modelled.
- Ranges.Runs: numbers are unbounded; overflow at the ends of i64 is not modelled.
- Counters and clocks of u32 and u64 width do not wrap in the model.
- JSON values are typed records: a `monitored` that is no boolean or a tag that is no integer is not represented.
- `episodes_done`, `series_ready`, `season_left_out`, `status_of`, `pick_server`: single expressions.
- `record_service`, `fail_left_out_seasons`, notifications and their wording: no part in the request statuses modelled.
- `map_with_concurrency`: a semaphore around each item; its order and bound are the library's.
- `catalog_of`, `aired_from`, `track_order`, `missing`, `parse_list_url`: plain iterator expressions or bookkeeping around what is modelled.
- Sockets, HTTP, SQL text and the two database dialects, settings readers, authentication, mail, and the frontend.
