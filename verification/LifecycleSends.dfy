/** What the sends to Radarr and Sonarr start, and where they leave an approved request. */
module LifecycleSends {
  import opened Text
  import opened LifecycleRows
  import opened Lifecycle
  import opened LifecycleSaves
  import opened Removal
  import opened LifecycleRuns
  import opened LifecycleOutcomes

  // ------------------------------------------------------------------- movies

  /** The movie is in Radarr already. */
  predicate MovieThere(t: Tables, e: Request)
  {
    HasMedia(t, e) && StatusOf(t.media[e.mediaId.value], e.is4k) == M_AVAILABLE
  }

  /**
   * The add of an approved movie starts exactly when a server takes it, its media row is read and not AVAILABLE yet,
   * and the step before the add goes on.
   */
  lemma MovieAdd(o: Oracle, w: World, e: Request, depth: nat)
    requires e.status == APPROVED && e.kind == Movie
    ensures SendToRadarr(o, w, e, depth).w.adds
         == w.adds + if o.ext(w.asked) && o.db(w.asked + 1) && HasMedia(w.tables, e) && !MovieThere(w.tables, e)
                        && o.ext(w.asked + 2) then 1 else 0
  {
    hide Save;
    SettledSaveBounds(o, Asked(Asked(w)), e.(status := COMPLETED), depth + 1);
    var inner := RadarrInner(o, w, e, depth);
    SettledSaveBounds(o, Asked(inner.w), inner.e.(status := FAILED), depth + 1);
  }

  /**
   * With a working database, what an approved movie ends as: COMPLETED when a server takes it and it is there, FAILED
   * when the step before the add fails and the media row is there, else APPROVED.
   */
  lemma MovieEnds(o: Oracle, w: World, e: Request, depth: nat)
    requires Works(o) && e.status == APPROVED && e.kind == Movie
    ensures var r := SendToRadarr(o, w, e, depth);
            (r.e.status == COMPLETED <==> o.ext(w.asked) && MovieThere(w.tables, e))
            && (r.e.status == FAILED <==>
                o.ext(w.asked) && HasMedia(w.tables, e) && !MovieThere(w.tables, e) && !o.ext(w.asked + 2))
            && (r.e.status == APPROVED || r.e.status == COMPLETED || r.e.status == FAILED)
  {
    hide Save;
    SettledSaveBounds(o, Asked(Asked(w)), e.(status := COMPLETED), depth + 1);
    NestedSave(o, Asked(Asked(w)), e.(status := COMPLETED), depth + 1);
    var inner := RadarrInner(o, w, e, depth);
    SettledSaveBounds(o, Asked(inner.w), inner.e.(status := FAILED), depth + 1);
  }

  /** With a working database a save ends without an error. */
  lemma NestedSave(o: Oracle, w: World, e: Request, depth: nat)
    requires Works(o) && e.status != APPROVED
    ensures Save(o, w, e, depth).ok
  {
    hide SavedRow, ReloadedChildren, RowDiffers, AfterUpdate;
    SettledHooks(o, Write(o, w.(deepest := Max(w.deepest, depth)), e, true).w,
      Write(o, w.(deepest := Max(w.deepest, depth)), e, true).e, depth);
  }

  // ------------------------------------------------------------------- series

  /** The series is in Sonarr already, and the request asks for no episodes. */
  predicate SeriesThere(t: Tables, e: Request)
  {
    HasMedia(t, e) && StatusOf(t.media[e.mediaId.value], e.is4k) == M_AVAILABLE && !e.selection && e.episodes == []
  }

  /** The inner send: only its add counts, and it is COMPLETED exactly when the series is there. */
  lemma SeriesInner(o: Oracle, w: World, e: Request, depth: nat)
    requires e.status == APPROVED
    ensures var r := SonarrInner(o, w, e, depth);
            r.w.adds == w.adds + if o.ext(w.asked) && o.db(w.asked + 1) && HasMedia(w.tables, e)
                                    && !SeriesThere(w.tables, e) && o.ext(w.asked + 2) && o.ext(w.asked + 3)
                                    && o.ext(w.asked + 4) then 1 else 0
    ensures var r := SonarrInner(o, w, e, depth);
            r.e.mediaId == e.mediaId && r.e.status == if o.ext(w.asked) && o.db(w.asked + 1)
                                                         && SeriesThere(w.tables, e) then COMPLETED else APPROVED
    ensures Works(o) ==> (SonarrInner(o, w, e, depth).ok
            <==> !o.ext(w.asked) || (HasMedia(w.tables, e) && (SeriesThere(w.tables, e)
                 || (o.ext(w.asked + 2) && (!o.ext(w.asked + 3) || o.ext(w.asked + 4))))))
  {
    hide Save, Cascaded;
    CompletedSeries(e);
    SettledSaveBounds(o, Asked(Asked(w)), AllCompleted(e), depth + 1);
    if Works(o) { NestedSave(o, Asked(Asked(w)), AllCompleted(e), depth + 1); }
  }

  lemma CompletedSeries(e: Request)
    ensures AllCompleted(e).status == COMPLETED && AllCompleted(e).mediaId == e.mediaId
  {
    hide WithChildStatus;
  }

  /** The same for a series: TMDB answers, a server takes it, and the step before the add goes on. */
  lemma SeriesAdd(o: Oracle, w: World, e: Request, depth: nat)
    requires e.status == APPROVED && e.kind == Tv
    ensures SendToSonarr(o, w, e, depth).w.adds
         == w.adds + if o.ext(w.asked) && o.db(w.asked + 1) && HasMedia(w.tables, e) && !SeriesThere(w.tables, e)
                        && o.ext(w.asked + 2) && o.ext(w.asked + 3) && o.ext(w.asked + 4) then 1 else 0
  {
    hide SonarrInner, SeriesThere, HasMedia;
    SeriesInner(o, w, e, depth);
  }

  /**
   * With a working database: COMPLETED when a server is set up and the series is there, FAILED when a step before the
   * add fails and the media row is there, else APPROVED, also without a server that takes it.
   */
  lemma SeriesEnds(o: Oracle, w: World, e: Request, depth: nat)
    requires Works(o) && e.status == APPROVED && e.kind == Tv
    ensures var r := SendToSonarr(o, w, e, depth);
            (r.e.status == COMPLETED <==> o.ext(w.asked) && SeriesThere(w.tables, e))
            && (r.e.status == FAILED <==>
                o.ext(w.asked) && HasMedia(w.tables, e) && !SeriesThere(w.tables, e)
                && (!o.ext(w.asked + 2) || (o.ext(w.asked + 3) && !o.ext(w.asked + 4))))
            && (r.e.status == APPROVED || r.e.status == COMPLETED || r.e.status == FAILED)
  {
    hide SonarrInner, SeriesThere;
    SeriesInner(o, w, e, depth);
    if !SonarrInner(o, w, e, depth).ok { SeriesMedia(o, w, e, depth); }
  }

  /** The media rows the error path reads are the ones before. */
  lemma SeriesMedia(o: Oracle, w: World, e: Request, depth: nat)
    requires Works(o) && e.status == APPROVED && !SonarrInner(o, w, e, depth).ok
    ensures SonarrInner(o, w, e, depth).w.tables == w.tables
  {
    hide Save, Cascaded;
    CompletedSeries(e);
    NestedSave(o, Asked(Asked(w)), AllCompleted(e), depth + 1);
  }

  // ------------------------------------------------------ approvals and inserts

  /** An approved request is there already, so its send completes it. */
  predicate There(t: Tables, e: Request) { if e.kind == Movie then MovieThere(t, e) else SeriesThere(t, e) }

  /** From outside step `n` on, the steps of a send up to its add go on. */
  ghost predicate GoesOn(o: Oracle, kind: Kind, n: nat)
  {
    o.ext(n) && (kind == Tv ==> o.ext(n + 1) && o.ext(n + 2))
  }

  /** From outside step `n` on, a step fails; a series without a server just stays. */
  ghost predicate Fails(o: Oracle, kind: Kind, n: nat)
  {
    !o.ext(n) || (kind == Tv && o.ext(n + 1) && !o.ext(n + 2))
  }

  /**
   * The sends of an approved request with a working database, from outside step `n` on: one add exactly when a
   * server is set up, the media row is there, what is asked for isn't, and every step goes on.
   */
  ghost predicate SentAs(o: Oracle, t: Tables, e: Request, n: nat, adds: int, status: int)
  {
    var taken := o.ext(n) && HasMedia(t, e);
    (adds == if taken && !There(t, e) && GoesOn(o, e.kind, n + 2) then 1 else 0)
    && (status == if taken && There(t, e) then COMPLETED
                  else if taken && Fails(o, e.kind, n + 2) then FAILED else APPROVED)
  }

  lemma SendsOf(o: Oracle, w: World, e: Request, depth: nat)
    requires Works(o) && e.status == APPROVED
    ensures var radarr := SendToRadarr(o, w, e, depth);
            var sonarr := SendToSonarr(o, radarr.w, radarr.e, depth);
            var sent := if e.kind == Movie then radarr else sonarr;
            SentAs(o, w.tables, e, w.asked, sent.w.adds - w.adds, sent.e.status)
            && (e.kind == Movie ==> sonarr == Outcome(radarr.w, radarr.e, true))
            && (e.kind == Tv ==> radarr == Outcome(w, e, true))
  {
    hide RadarrInner, SonarrInner;
    if e.kind == Movie {
      MovieAdd(o, w, e, depth);
      MovieEnds(o, w, e, depth);
      RadarrBounds(o, w, e, depth);
    } else {
      SeriesAdd(o, w, e, depth);
      SeriesEnds(o, w, e, depth);
    }
  }

  /** What the first write hands to the hooks. */
  lemma WrittenFirst(o: Oracle, w: World, e: Request)
    requires Works(o) && e.id in w.tables.requests
    ensures var r := Write(o, w, e, true);
            r.ok && r.w.asked == w.asked + 3 && r.w.adds == w.adds && r.w.tables.media == w.tables.media
            && r.changed == RowDiffers(w.tables.requests[e.id], e) && SameRequest(r.e, e)
            && r.e.status == e.status && r.e.selection == e.selection && |r.e.episodes| == |e.episodes|
  {
    hide SavedRow, SavedChildren, RowDiffers;
  }

  lemma SameThere(t: Tables, t': Tables, e: Request, e': Request)
    requires t'.media == t.media && SameRequest(e', e) && e'.selection == e.selection
        && |e'.episodes| == |e.episodes|
    ensures There(t', e') == There(t, e) && HasMedia(t', e') == HasMedia(t, e)
  {
  }

  lemma SaveSends(o: Oracle, t: Tables, e: Request)
    requires Works(o) && e.id in t.requests && RowDiffers(t.requests[e.id], e) && e.status == APPROVED
    ensures var r := Save(o, Start(t), e, 0); SentAs(o, t, e, 3, r.w.adds, r.e.status)
  {
    hide Write, UpdateParent, SendToRadarr, SendToSonarr, RowDiffers, There, HasMedia, GoesOn, Fails;
    var w0 := Start(t).(deepest := Max(Start(t).deepest, 0));
    WrittenFirst(o, w0, e);
    var wrote := Write(o, w0, e, true);
    SameThere(t, wrote.w.tables, e, wrote.e);
    var w1 := wrote.w.(hooks := wrote.w.hooks + 1);
    SendsOf(o, w1, wrote.e, 0);
    var radarr := SendToRadarr(o, w1, wrote.e, 0);
    var sonarr := SendToSonarr(o, radarr.w, radarr.e, 0);
    ParentBounds(o, sonarr.w, sonarr.e);
  }

  /**
   * An approval, or a retry, with a working database starts one add exactly when a server is set up and every step
   * goes on for media that isn't there; and it ends COMPLETED exactly when the server is set up and the media is
   * there, FAILED exactly when a step failed, else APPROVED.
   */
  lemma ApproveSends(o: Oracle, t: Tables, id: int, from: int, viewer: int)
    requires Works(o) && Good(t) && id in t.requests && HasMedia(t, t.requests[id])
        && t.requests[id].status == from != APPROVED
    ensures var r, t' := t.requests[id], Next(o, t, Act(id, from, APPROVED, viewer));
            var adds := Save(o, Start(t), r.(status := APPROVED, modifiedBy := Some(viewer)), 0).w.adds;
            id in t'.requests && SentAs(o, t, r, 3, adds, t'.requests[id].status)
  {
    hide Save, InSync, UniqueIds, UniqueSeasons, GoesOn, Fails;
    var r := t.requests[id];
    var wanted := r.(status := APPROVED, modifiedBy := Some(viewer));
    assert wanted.id == id;
    SaveSends(o, t, wanted);
    SameThere(t, t, r, wanted);
    var mid, e := SaveRuns(o, Start(t), wanted, 0);
    OwnRow(t, mid, wanted, e);
    var after := Save(o, Start(t), wanted, 0);
    InSyncRow(after.e, after.w.tables.requests[id]);
  }

  /** The same for an auto-approved insert, whose transaction was the first call. */
  lemma InsertSends(o: Oracle, t: Tables, r: Request)
    requires Works(o) && Good(t) && Insertable(t, r) && r.status == APPROVED
    ensures var t' := Next(o, t, Insert(r));
            r.id in t'.requests
            && SentAs(o, WithNew(t, r), r, 1, AfterInsert(o, Begun(WithNew(t, r)), r).w.adds, t'.requests[r.id].status)
  {
    hide SendToRadarr, SendToSonarr, UpdateParent, InSync, UniqueIds, UniqueSeasons, There, HasMedia, GoesOn, Fails;
    NewRow(t, r);
    var w := Begun(WithNew(t, r));
    SendsOf(o, w, r, 0);
    var radarr := SendToRadarr(o, w, r, 0);
    var sonarr := SendToSonarr(o, radarr.w, radarr.e, 0);
    var mid, e := InsertRuns(o, w, r);
    var after := AfterInsert(o, w, r);
    ParentBounds(o, sonarr.w, sonarr.e);
    InSyncRow(after.e, after.w.tables.requests[r.id]);
  }

  // ------------------------------------------------------------- the child rows

  predicate SameIds(a: seq<Child>, b: seq<Child>) { |a| == |b| && forall i :: 0 <= i < |a| ==> a[i].id == b[i].id }

  predicate SameRows(a: Request, b: Request) { SameIds(a.seasons, b.seasons) && SameIds(a.episodes, b.episodes) }

  /** The entity's season and episode rows are those of its stored request, one by one. */
  predicate Paired(t: Tables, e: Request)
  {
    e.id in t.requests ==> SameRows(e, t.requests[e.id])
  }

  /** Every season and episode row has the status. */
  predicate AllAt(r: Request, status: int)
  {
    (forall i :: 0 <= i < |r.seasons| ==> r.seasons[i].status == status)
    && forall i :: 0 <= i < |r.episodes| ==> r.episodes[i].status == status
  }

  lemma SavedAt(rows: seq<Child>, wanted: seq<Child>, now: int, status: int)
    requires SameIds(wanted, rows) && forall i :: 0 <= i < |wanted| ==> wanted[i].status == status
    ensures forall i :: 0 <= i < |rows| ==> SavedChildren(rows, wanted, now)[i].status == status
  {
    hide Find;
    forall i | 0 <= i < |rows| ensures SavedChild(rows[i], wanted, now).status == status {
      assert wanted[i] in wanted;
    }
  }

  /** A save keeps the pairs, and rows that all have one status bring it to the stored ones. */
  lemma SavedPairs(stored: Request, e: Request, withRow: bool, now: int)
    requires SameRows(e, stored)
    ensures var saved := SavedRow(stored, e, withRow, now);
            SameRows(Reloaded(e, saved, withRow), saved) && SameRows(saved, stored)
            && forall status :: AllAt(e, status) ==> AllAt(saved, status)
  {
    hide Find, RowDiffers;
    forall status | AllAt(e, status) ensures AllAt(SavedRow(stored, e, withRow, now), status) {
      SavedAt(stored.seasons, e.seasons, now, status);
      SavedAt(stored.episodes, e.episodes, now, status);
    }
  }

  lemma CascadedAt(e: Request)
    ensures AllAt(Cascaded(e), e.status) && SameRows(Cascaded(e), e)
  {
  }

  lemma WritePairs(o: Oracle, w: World, e: Request)
    requires Works(o) && Paired(w.tables, e)
    ensures var r := Write(o, w, e, true);
            r.e.id == e.id && Paired(r.w.tables, r.e) && r.w.tables.requests.Keys == w.tables.requests.Keys
            && (e.id in w.tables.requests ==>
                  SameRows(r.w.tables.requests[e.id], w.tables.requests[e.id])
                  && forall status :: AllAt(e, status) ==> AllAt(r.w.tables.requests[e.id], status))
  {
    hide SavedRow, Reloaded, AllAt, SameRows;
    if e.id in w.tables.requests {
      SavedPairs(w.tables.requests[e.id], e, true, o.clock(w.asked + 1));
      ReloadedId(e, SavedRow(w.tables.requests[e.id], e, true, o.clock(w.asked + 1)));
    }
  }

  lemma ReloadedId(e: Request, saved: Request)
    ensures Reloaded(e, saved, true).id == e.id && Reloaded(e, saved, false).id == e.id
  {
    hide ReloadedChildren;
  }

  /** The parent's update of a decline or an approval of a series brings its status to every child row. */
  lemma ParentReachesChildren(o: Oracle, w: World, e: Request)
    requires Works(o) && e.id in w.tables.requests && Paired(w.tables, e)
    requires HasMedia(w.tables, e) && w.tables.media[e.mediaId.value].isTv
    ensures var r := UpdateParent(o, w, e);
            e.id in r.w.tables.requests
            && (if e.status == DECLINED || e.status == APPROVED
                then AllAt(r.w.tables.requests[e.id], e.status)
                     && SameRows(r.w.tables.requests[e.id], w.tables.requests[e.id])
                else r.w.tables.requests == w.tables.requests)
  {
    hide ParentMedia, SavedRow, Reloaded, AllAt, Cascaded;
    CascadedAt(e);
    CascadedId(e);
    SavedPairs(w.tables.requests[e.id], Cascaded(e), false, o.clock(w.asked + 2));
  }

  lemma CascadedId(e: Request)
    ensures Cascaded(e).id == e.id
  {
  }

  /** A closing save of paired rows that all have its status brings it to every child row. */
  lemma ClosingReachesChildren(o: Oracle, w: World, e: Request, depth: nat)
    requires Works(o) && (e.status == COMPLETED || e.status == FAILED) && Paired(w.tables, e)
    ensures var r := Save(o, w, e, depth);
            r.e.id == e.id && r.w.tables.requests.Keys == w.tables.requests.Keys
            && (e.id in w.tables.requests ==>
                  SameRows(r.w.tables.requests[e.id], w.tables.requests[e.id])
                  && forall status :: AllAt(e, status) ==> AllAt(r.w.tables.requests[e.id], status))
  {
    hide Write, UpdateParent, AfterUpdate, AllAt, SameRows;
    var w0 := w.(deepest := Max(w.deepest, depth));
    WritePairs(o, w0, e);
    var wrote := Write(o, w0, e, true);
    WriteBounds(o, w0, e, true);
    SettledHooks(o, wrote.w, wrote.e, depth);
    ClosedParentKeeps(o, wrote.w.(hooks := wrote.w.hooks + 1), wrote.e);
  }

  lemma ClosedParentKeeps(o: Oracle, w: World, e: Request)
    requires e.status != DECLINED && e.status != APPROVED
    ensures var r := UpdateParent(o, w, e); r.w.tables.requests == w.tables.requests && r.e == e
  {
    hide ParentMedia, Cascaded, SavedRow, Reloaded;
  }

  /** What a send of a series does to the child rows: nothing, unless it completes the request, with all of them. */
  lemma SeriesChildren(o: Oracle, w: World, e: Request, depth: nat)
    requires Works(o) && e.status == APPROVED && e.kind == Tv && e.id in w.tables.requests && Paired(w.tables, e)
    ensures var r := SendToSonarr(o, w, e, depth);
            e.id in r.w.tables.requests && r.e.id == e.id
            && (r.e.status == APPROVED ==> r.w.tables == w.tables && r.e == e)
            && (r.e.status == COMPLETED ==> AllAt(r.w.tables.requests[e.id], COMPLETED)
                                            && SameRows(r.w.tables.requests[e.id], w.tables.requests[e.id]))
            && (r.e.status == FAILED ==> r.w.tables.requests[e.id].seasons == w.tables.requests[e.id].seasons
                                         && r.w.tables.requests[e.id].episodes == w.tables.requests[e.id].episodes)
  {
    hide Save, Cascaded, AllAt, SameIds;
    var done := AllCompleted(e);
    CompletedSeries(e);
    CascadedAt(e.(status := COMPLETED));
    CascadedId(e.(status := COMPLETED));
    SameRowsTwice(done, e, w.tables.requests[e.id]);
    ClosingReachesChildren(o, Asked(Asked(w)), done, depth + 1);
    NestedSave(o, Asked(Asked(w)), done, depth + 1);
    SettledSaveBounds(o, Asked(Asked(w)), done, depth + 1);
  }

  lemma SameRowsTwice(a: Request, b: Request, c: Request)
    requires SameRows(a, b) || (a.seasons == b.seasons && a.episodes == b.episodes)
    requires SameRows(b, c)
    ensures SameRows(a, c)
  {
  }

  /**
   * The season and episode rows of a series' stored request before and after a step: every one takes the status of a
   * request that ends DECLINED, APPROVED or COMPLETED, and they stay when it ends FAILED.
   */
  predicate ChildrenFollow(r: Request, r': Request)
  {
    SameRows(r', r)
    && (r'.status == DECLINED || r'.status == APPROVED || r'.status == COMPLETED ==> AllAt(r', r'.status))
    && (r'.status == FAILED ==> r'.seasons == r.seasons && r'.episodes == r.episodes)
  }

  /** The send and the parent's update of a paired entity. */
  lemma HooksReachChildren(o: Oracle, w: World, e: Request)
    requires Works(o) && e.id in w.tables.requests && Paired(w.tables, e) && e.kind == Tv
    requires HasMedia(w.tables, e) && w.tables.media[e.mediaId.value].isTv
    requires e.status == APPROVED || e.status == DECLINED
    ensures var sent := SendToSonarr(o, w, e, 0);
            var r := UpdateParent(o, sent.w, sent.e);
            e.id in r.w.tables.requests
            && (var row, row' := w.tables.requests[e.id], r.w.tables.requests[e.id];
                SameRows(row', row)
                && (r.e.status == FAILED ==> row'.seasons == row.seasons && row'.episodes == row.episodes)
                && (r.e.status == DECLINED || r.e.status == APPROVED || r.e.status == COMPLETED
                    ==> AllAt(row', r.e.status)))
  {
    hide SendToSonarr, UpdateParent, AllAt, SameIds;
    var sent := SendToSonarr(o, w, e, 0);
    ParentBounds(o, sent.w, sent.e);
    if e.status == APPROVED {
      SeriesChildren(o, w, e, 0);
      SeriesEnds(o, w, e, 0);
    } else {
      SettledSends(o, w, e, 0);
    }
    if sent.e.status == APPROVED || sent.e.status == DECLINED {
      ParentReachesChildren(o, sent.w, sent.e);
    } else {
      ClosedParentKeeps(o, sent.w, sent.e);
      if sent.e.status == FAILED { SameRowsItself(w.tables.requests[e.id], sent.w.tables.requests[e.id]); }
    }
  }

  lemma SameRowsItself(a: Request, b: Request)
    requires a.seasons == b.seasons && a.episodes == b.episodes
    ensures SameRows(b, a)
  {
  }

  /** A write of a copy with the stored child rows changes none of them. */
  lemma WritesNoChild(o: Oracle, w: World, e: Request)
    requires Works(o) && e.id in w.tables.requests && UniqueIds(e.seasons) && UniqueIds(e.episodes)
    requires e.seasons == w.tables.requests[e.id].seasons && e.episodes == w.tables.requests[e.id].episodes
    ensures var r := Write(o, w, e, true);
            e.id in r.w.tables.requests && r.w.tables.requests[e.id].seasons == e.seasons
            && r.w.tables.requests[e.id].episodes == e.episodes
  {
    hide Reloaded, Find, RowDiffers;
    OwnAgree(e.seasons);
    OwnAgree(e.episodes);
    assert forall c :: Same(c, c);
    OwnSaved(e.seasons, o.clock(w.asked + 1));
    OwnSaved(e.episodes, o.clock(w.asked + 1));
  }

  lemma OwnSaved(rows: seq<Child>, now: int)
    requires ChildrenAgree(rows, rows)
    ensures SavedChildren(rows, rows, now) == rows
  {
    hide Find;
    forall i | 0 <= i < |rows| ensures SavedChild(rows[i], rows, now) == rows[i] { assert rows[i] in rows; }
  }

  /** A save of a copy of a stored request of a series, approved or declined. */
  lemma SaveReachesChildren(o: Oracle, t: Tables, e: Request)
    requires UniqueIds(e.seasons) && UniqueIds(e.episodes)
    requires Works(o) && e.id in t.requests && RowDiffers(t.requests[e.id], e) && e.kind == Tv
    requires e.seasons == t.requests[e.id].seasons && e.episodes == t.requests[e.id].episodes
    requires HasMedia(t, e) && t.media[e.mediaId.value].isTv && (e.status == APPROVED || e.status == DECLINED)
    ensures var r := Save(o, Start(t), e, 0);
            e.id in r.w.tables.requests
            && (var row, row' := t.requests[e.id], r.w.tables.requests[e.id];
                SameRows(row', row)
                && (r.e.status == FAILED ==> row'.seasons == row.seasons && row'.episodes == row.episodes)
                && (r.e.status == DECLINED || r.e.status == APPROVED || r.e.status == COMPLETED
                    ==> AllAt(row', r.e.status)))
  {
    hide Write, UpdateParent, SendToSonarr, RadarrInner, RowDiffers, SameRows;
    var w0 := Start(t).(deepest := Max(Start(t).deepest, 0));
    SameRowsItself(t.requests[e.id], e);
    WritePairs(o, w0, e);
    WrittenFirst(o, w0, e);
    WritesNoChild(o, w0, e);
    var wrote := Write(o, w0, e, true);
    var w1 := wrote.w.(hooks := wrote.w.hooks + 1);
    assert SendToRadarr(o, w1, wrote.e, 0) == Outcome(w1, wrote.e, true);
    HooksReachChildren(o, w1, wrote.e);
    var sent := SendToSonarr(o, w1, wrote.e, 0);
    var r := UpdateParent(o, sent.w, sent.e);
    SameRowsTwice(r.w.tables.requests[e.id], w1.tables.requests[e.id], t.requests[e.id]);
  }

  /**
   * A decline, an approval or a retry of a series' request with a working database reaches every season and episode
   * row of it, and so does the send that completes it.
   */
  lemma StatusReachesChildren(o: Oracle, t: Tables, id: int, from: int, to: int, viewer: int)
    requires Works(o) && Good(t) && id in t.requests && HasMedia(t, t.requests[id]) && t.requests[id].kind == Tv
    requires t.media[t.requests[id].mediaId.value].isTv
    requires t.requests[id].status == from != to && (to == APPROVED || to == DECLINED)
    ensures var t' := Next(o, t, Act(id, from, to, viewer));
            id in t'.requests && ChildrenFollow(t.requests[id], t'.requests[id])
            && (to == DECLINED ==> t'.requests[id].status == DECLINED)
  {
    hide Save, InSync, UniqueIds, UniqueSeasons, SameRows, AllAt;
    var r := t.requests[id];
    var wanted := r.(status := to, modifiedBy := Some(viewer));
    assert wanted.id == id;
    SaveReachesChildren(o, t, wanted);
    var mid, e := SaveRuns(o, Start(t), wanted, 0);
    OwnRow(t, mid, wanted, e);
    var after := Save(o, Start(t), wanted, 0);
    InSyncRow(after.e, after.w.tables.requests[id]);
  }

  /** The same for an auto-approved insert of a series. */
  lemma InsertReachesChildren(o: Oracle, t: Tables, r: Request)
    requires Works(o) && Good(t) && Insertable(t, r) && r.status == APPROVED && r.kind == Tv
    requires r.mediaId.value in t.media ==> t.media[r.mediaId.value].isTv
    ensures var t' := Next(o, t, Insert(r)); r.id in t'.requests && ChildrenFollow(r, t'.requests[r.id])
  {
    hide SendToSonarr, UpdateParent, RadarrInner, InSync, UniqueIds, UniqueSeasons, AllAt, SameRows;
    NewRow(t, r);
    var w := Begun(WithNew(t, r));
    SameRowsItself(r, r);
    HooksReachChildren(o, w, r);
    var mid, e := InsertRuns(o, w, r);
    var after := AfterInsert(o, w, r);
    assert SendToRadarr(o, w, r, 0) == Outcome(w, r, true);
    InSyncRow(after.e, after.w.tables.requests[r.id]);
    InsertSends(o, t, r);
  }
}
