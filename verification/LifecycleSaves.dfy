/** What every request save keeps, whatever the database and the outside answer. */
module LifecycleSaves {
  import opened Text
  import opened LifecycleRows
  import opened Lifecycle

  // ------------------------------------------------------------------ bounds

  /** The step added at most `adds` adds and `hooks` hook runs, and saved no deeper than `depth`. */
  predicate Within(w: World, r: World, adds: nat, hooks: nat, depth: nat)
  {
    w.adds <= r.adds <= w.adds + adds && w.hooks <= r.hooks <= w.hooks + hooks
    && w.deepest <= r.deepest <= Max(w.deepest, depth)
  }

  predicate SameRequest(a: Request, b: Request)
  {
    a.id == b.id && a.kind == b.kind && a.is4k == b.is4k && a.mediaId == b.mediaId
  }

  lemma WriteBounds(o: Oracle, w: World, e: Request, withRow: bool)
    ensures var r := Write(o, w, e, withRow); Within(w, r.w, 0, 0, 0) && SameRequest(r.e, e) && r.e.status == e.status
  {
    hide SavedRow;
  }

  lemma ParentBounds(o: Oracle, w: World, e: Request)
    ensures var r := UpdateParent(o, w, e); Within(w, r.w, 0, 0, 0) && SameRequest(r.e, e) && r.e.status == e.status
  {
    hide SavedRow, ParentMedia, ReloadedChildren, WithChildStatus;
  }

  /** The hooks of a request that is not APPROVED only update its parent. */
  lemma SettledHooks(o: Oracle, w: World, e: Request, depth: nat)
    requires e.status != APPROVED
    ensures var parent := UpdateParent(o, w.(hooks := w.hooks + 1), e);
            AfterUpdate(o, w, e, depth) == Outcome(parent.w, parent.e, true)
  {
    hide UpdateParent;
  }

  /** A save of a request that is not APPROVED starts no add and saves no further. */
  lemma SettledSaveBounds(o: Oracle, w: World, e: Request, depth: nat)
    requires e.status != APPROVED
    ensures var r := Save(o, w, e, depth);
            Within(w, r.w, 0, if r.ok then 1 else 0, depth) && SameRequest(r.e, e) && r.e.status == e.status
  {
    hide Write, UpdateParent, AfterUpdate;
    var w0 := w.(deepest := Max(w.deepest, depth));
    WriteBounds(o, w0, e, true);
    var wrote := Write(o, w0, e, true);
    SettledHooks(o, wrote.w, wrote.e, depth);
    if wrote.ok && wrote.changed { ParentBounds(o, wrote.w.(hooks := wrote.w.hooks + 1), wrote.e); }
  }

  lemma RadarrBounds(o: Oracle, w: World, e: Request, depth: nat)
    ensures var r := SendToRadarr(o, w, e, depth); Within(w, r.w, 1, 1, depth + 1) && SameRequest(r.e, e)
    ensures var r := SendToRadarr(o, w, e, depth); r.w.adds == w.adds || r.w.hooks == w.hooks
  {
    hide Save, MediaAt, RadarrInner;
    if e.status == APPROVED && e.kind == Movie {
      RadarrInnerBounds(o, w, e, depth);
      var inner := RadarrInner(o, w, e, depth);
      SettledSaveBounds(o, Asked(inner.w), inner.e.(status := FAILED), depth + 1);
    }
  }

  lemma RadarrInnerBounds(o: Oracle, w: World, e: Request, depth: nat)
    requires e.status == APPROVED
    ensures var r := RadarrInner(o, w, e, depth);
            Within(w, r.w, if r.ok then 1 else 0, if r.ok then 1 else 0, depth + 1) && SameRequest(r.e, e)
            && (r.w.adds == w.adds || r.w.hooks == w.hooks)
  {
    hide Save, MediaAt;
    SettledSaveBounds(o, Asked(Asked(w)), e.(status := COMPLETED), depth + 1);
  }

  lemma SonarrBounds(o: Oracle, w: World, e: Request, depth: nat)
    ensures var r := SendToSonarr(o, w, e, depth); Within(w, r.w, 1, 1, depth + 1) && SameRequest(r.e, e)
    ensures var r := SendToSonarr(o, w, e, depth); r.w.adds == w.adds || r.w.hooks == w.hooks
  {
    hide Save, MediaAt, SonarrInner;
    if e.status == APPROVED && e.kind == Tv { SonarrInnerBounds(o, w, e, depth); }
  }

  lemma SonarrInnerBounds(o: Oracle, w: World, e: Request, depth: nat)
    requires e.status == APPROVED
    ensures var r := SonarrInner(o, w, e, depth);
            Within(w, r.w, if r.ok then 1 else 0, if r.ok then 1 else 0, depth + 1) && SameRequest(r.e, e)
            && (r.w.adds == w.adds || r.w.hooks == w.hooks)
  {
    hide Save, MediaAt, WithChildStatus;
    SettledSaveBounds(o, Asked(Asked(w)), AllCompleted(e), depth + 1);
  }

  /**
   * Whatever the calls answer, a save nests at most one save inside another, runs the hooks at most twice, and
   * starts at most one add: none unless the request is APPROVED, and none beside a nested run of the hooks.
   */
  lemma SaveIsBounded(o: Oracle, w: World, e: Request, depth: nat)
    ensures var r := Save(o, w, e, depth);
            var approved := e.status == APPROVED;
            Within(w, r.w, if approved then 1 else 0, if approved then 2 else 1, if approved then depth + 1 else depth)
            && (r.w.adds == w.adds || r.w.hooks <= w.hooks + 1)
  {
    hide Write, AfterUpdate;
    if e.status != APPROVED {
      SettledSaveBounds(o, w, e, depth);
    } else {
      var w0 := w.(deepest := Max(w.deepest, depth));
      WriteBounds(o, w0, e, true);
      var wrote := Write(o, w0, e, true);
      HooksBounds(o, wrote.w, wrote.e, depth);
    }
  }

  /** One run of the update hooks. */
  lemma HooksBounds(o: Oracle, w: World, e: Request, depth: nat)
    ensures var r := AfterUpdate(o, w, e, depth);
            Within(w, r.w, 1, 2, depth + 1) && (r.w.adds == w.adds || r.w.hooks <= w.hooks + 1)
  {
    hide UpdateParent, SendToRadarr, SendToSonarr;
    var w1 := w.(hooks := w.hooks + 1);
    RadarrBounds(o, w1, e, depth);
    var radarr := SendToRadarr(o, w1, e, depth);
    SonarrBounds(o, radarr.w, radarr.e, depth);
    var sonarr := SendToSonarr(o, radarr.w, radarr.e, depth);
    OneSends(o, w1, e, depth);
    ParentBounds(o, sonarr.w, sonarr.e);
  }

  /** Radarr takes movies and Sonarr series: one of them does nothing. */
  lemma OneSends(o: Oracle, w: World, e: Request, depth: nat)
    ensures var radarr := SendToRadarr(o, w, e, depth);
            var sonarr := SendToSonarr(o, radarr.w, radarr.e, depth);
            (radarr.w == w && radarr.e == e) || (sonarr.w == radarr.w && sonarr.e == radarr.e)
  {
    hide RadarrInner, SonarrInner;
    RadarrBounds(o, w, e, depth);
  }

  /**
   * The hooks of an insert start one add at most, and none beside a nested save that runs hooks; a nested save holds
   * no other.
   */
  lemma InsertIsBounded(o: Oracle, w: World, e: Request)
    ensures var r := AfterInsert(o, w, e);
            var approved := e.status == APPROVED;
            Within(w, r.w, if approved then 1 else 0, if approved then 1 else 0, if approved then 1 else 0)
            && (r.w.adds == w.adds || r.w.hooks == w.hooks)
  {
    hide UpdateParent, RadarrInner, SonarrInner;
    RadarrBounds(o, w, e, 0);
    var radarr := SendToRadarr(o, w, e, 0);
    SonarrBounds(o, radarr.w, radarr.e, 0);
    OneSends(o, w, e, 0);
    var sent := if radarr.ok then SendToSonarr(o, radarr.w, radarr.e, 0) else radarr;
    ParentBounds(o, sent.w, sent.e);
  }

  // ------------------------------------------------------------ what it writes

  /**
   * A child row before and after a write: when the entity's row of its id has another status or search time, it takes
   * the status, is searched now if that one was, and is updated now.
   */
  predicate ChildWritten(before: Child, after: Child, wanted: seq<Child>, now: int)
  {
    after.id == before.id && after.number == before.number
    && ((forall k :: 0 <= k < |wanted| ==> wanted[k].id != before.id) ==> after == before)
    && (forall k :: 0 <= k < |wanted| && wanted[k].id == before.id ==>
          if wanted[k].status == before.status && wanted[k].searched == before.searched then after == before
          else after.status == wanted[k].status && after.updatedAt == now
               && after.searched == if wanted[k].searched.Some? then Some(now) else None)
  }

  predicate ChildrenWritten(before: seq<Child>, after: seq<Child>, wanted: seq<Child>, now: int)
  {
    |after| == |before| && forall i :: 0 <= i < |before| ==> ChildWritten(before[i], after[i], wanted, now)
  }

  /** The stored request before and after a write. */
  predicate RowWritten(before: Request, after: Request, e: Request, withRow: bool, now: int)
  {
    SameRequest(before, after) && before.selection == after.selection
    && (if withRow && (before.status != e.status || before.modifiedBy != e.modifiedBy)
        then after.status == e.status && after.modifiedBy == e.modifiedBy && after.updatedAt == now
        else (after.status, after.modifiedBy, after.updatedAt) == (before.status, before.modifiedBy, before.updatedAt))
    && ChildrenWritten(before.seasons, after.seasons, e.seasons, now)
    && ChildrenWritten(before.episodes, after.episodes, e.episodes, now)
  }

  lemma SavedChildrenWritten(before: seq<Child>, wanted: seq<Child>, now: int)
    requires UniqueIds(wanted)
    ensures ChildrenWritten(before, SavedChildren(before, wanted, now), wanted, now)
  {
    forall i | 0 <= i < |before| ensures ChildWritten(before[i], SavedChild(before[i], wanted, now), wanted, now) {
      forall k | 0 <= k < |wanted| && wanted[k].id == before[i].id
        ensures Find(wanted, before[i].id) == Some(wanted[k])
      {
        FindOwn(wanted, k);
      }
    }
  }

  /** Every row but the saved request's own keeps its value, and that one changes where entity and row differ. */
  predicate OnlyRequest(t: Tables, t': Tables, id: int)
  {
    t'.media == t.media && t'.requests.Keys == t.requests.Keys
    && forall other :: other in t.requests && other != id ==> t'.requests[other] == t.requests[other]
  }

  lemma WriteTouchesOnlyDiffering(o: Oracle, w: World, e: Request, withRow: bool)
    requires UniqueIds(e.seasons) && UniqueIds(e.episodes)
    ensures var r := Write(o, w, e, withRow);
            OnlyRequest(w.tables, r.w.tables, e.id)
            && (r.w.tables == w.tables
                || (e.id in w.tables.requests
                    && RowWritten(w.tables.requests[e.id], r.w.tables.requests[e.id], e, withRow,
                                  o.clock(w.asked + 1))))
    ensures var r := Write(o, w, e, withRow);
            r.changed ==> withRow && e.id in w.tables.requests && RowDiffers(w.tables.requests[e.id], e)
  {
    hide ChildrenWritten, SavedChildren, ReloadedChildren, UniqueIds;
    if e.id in w.tables.requests {
      var stored, now := w.tables.requests[e.id], o.clock(Asked(w).asked);
      SavedChildrenWritten(stored.seasons, e.seasons, now);
      SavedChildrenWritten(stored.episodes, e.episodes, now);
    }
  }

  /**
   * Which calls a write needs: the read of the stored request and, when it is there, the transaction and the reload. It
   * commits exactly when the first two succeed; the third's failure is an error after the commit.
   */
  lemma WriteNeeds(o: Oracle, w: World, e: Request, withRow: bool)
    requires UniqueIds(e.seasons) && UniqueIds(e.episodes)
    ensures var r := Write(o, w, e, withRow);
            var there, committed := e.id in w.tables.requests, o.db(w.asked) && o.db(w.asked + 1);
            (r.ok <==> o.db(w.asked) && (there ==> committed && o.db(w.asked + 2)))
            && (!there || !committed ==> r.w.tables == w.tables && r.e == e && !r.changed)
            && (there && committed ==>
                  RowWritten(w.tables.requests[e.id], r.w.tables.requests[e.id], e, withRow, o.clock(w.asked + 1))
                  && (r.changed <==> r.ok && withRow && RowDiffers(w.tables.requests[e.id], e)))
  {
    hide ChildrenWritten, SavedChildren, ReloadedChildren, UniqueIds;
    if e.id in w.tables.requests {
      var stored, now := w.tables.requests[e.id], o.clock(Asked(w).asked);
      SavedChildrenWritten(stored.seasons, e.seasons, now);
      SavedChildrenWritten(stored.episodes, e.episodes, now);
    }
  }

  /** The entity's rows `rows` read back as `reread`: each takes the dates of the stored row of its id. */
  predicate DatesRead(rows: seq<Child>, reread: seq<Child>, stored: seq<Child>)
  {
    |reread| == |rows|
    && forall i, j :: 0 <= i < |rows| && 0 <= j < |stored| && stored[j].id == rows[i].id ==>
         reread[i] == rows[i].(updatedAt := stored[j].updatedAt, searched := stored[j].searched)
  }

  lemma ReloadedDates(rows: seq<Child>, stored: seq<Child>)
    requires UniqueIds(stored)
    ensures DatesRead(rows, ReloadedChildren(rows, stored), stored)
  {
    hide Find;
    forall j | 0 <= j < |stored| ensures Find(stored, stored[j].id) == Some(stored[j]) { FindOwn(stored, j); }
  }

  /** What a write without error reads back into the entity: the stored dates, of the row when that was written. */
  lemma WriteReloads(o: Oracle, w: World, e: Request, withRow: bool)
    requires Write(o, w, e, withRow).ok && e.id in w.tables.requests
    requires UniqueIds(w.tables.requests[e.id].seasons) && UniqueIds(w.tables.requests[e.id].episodes)
    ensures var r := Write(o, w, e, withRow);
            var stored := r.w.tables.requests[e.id];
            r.e.updatedAt == (if withRow then stored.updatedAt else e.updatedAt)
            && DatesRead(e.seasons, r.e.seasons, stored.seasons) && DatesRead(e.episodes, r.e.episodes, stored.episodes)
  {
    hide RowDiffers, ReloadedChildren, UniqueIds, DatesRead, SavedChildren;
    var before := w.tables.requests[e.id];
    var stored := SavedRow(before, e, withRow, o.clock(Asked(w).asked));
    SavedUnique(before.seasons, e.seasons, o.clock(Asked(w).asked));
    SavedUnique(before.episodes, e.episodes, o.clock(Asked(w).asked));
    ReloadedDates(e.seasons, stored.seasons);
    ReloadedDates(e.episodes, stored.episodes);
  }

  lemma SavedUnique(rows: seq<Child>, wanted: seq<Child>, now: int)
    requires UniqueIds(rows)
    ensures UniqueIds(SavedChildren(rows, wanted, now))
  {
    hide Find;
  }

  /** A save is counted as deep as it is. */
  lemma SaveDeepens(o: Oracle, w: World, e: Request, depth: nat)
    ensures var r := Save(o, w, e, depth); r.w.deepest >= depth && r.w.deepest >= w.deepest
  {
    hide Write, AfterUpdate;
    var w0 := w.(deepest := Max(w.deepest, depth));
    WriteBounds(o, w0, e, true);
    var wrote := Write(o, w0, e, true);
    HooksBounds(o, wrote.w, wrote.e, depth);
  }

  /** The quiet failure needs its one call. */
  lemma QuietNeeds(o: Oracle, w: World, e: Request)
    ensures var r := MarkFailedQuietly(o, w, e);
            (r.ok <==> o.db(w.asked)) && r.e == e && r.w.tables.media == w.tables.media
            && (if o.db(w.asked) && e.id in w.tables.requests then
                  r.w.tables.requests.Keys == w.tables.requests.Keys && r.w.tables.requests[e.id].status == FAILED
                else r.w.tables == w.tables)
  {
  }

  /**
   * The parent's update needs the read of the media row and its transaction, for a decline or an approval of a series
   * also the read of the request between them and its reload after; before the transaction nothing changes.
   */
  lemma ParentNeeds(o: Oracle, w: World, e: Request)
    requires e.mediaId.Some? && e.mediaId.value in w.tables.media
    ensures var r := UpdateParent(o, w, e);
            var cascades := w.tables.media[e.mediaId.value].isTv && (e.status == DECLINED || e.status == APPROVED);
            var first, second := o.db(w.asked), o.db(w.asked + 1);
            var reached := first && second && (cascades ==> o.db(w.asked + 2));
            (r.ok <==> reached && (cascades && e.id in w.tables.requests ==> o.db(w.asked + 3)))
            && (!reached ==> r.w.tables == w.tables && r.e.status == e.status)
            && (reached ==>
                  var id := e.mediaId.value;
                  r.w.tables.media == w.tables.media[id := ParentMedia(w.tables, w.tables.media[id], e)])
  {
    hide SavedRow, ParentMedia, ReloadedChildren, WithChildStatus;
  }

  // ------------------------------------------------------------ writing again

  /** The stored row of the entity, when there is one, agrees with it. */
  predicate Settled(t: Tables, e: Request)
  {
    e.id in t.requests ==> SameRequest(t.requests[e.id], e) && InSync(e, t.requests[e.id])
  }

  /** Writing a settled entity changes no row. */
  lemma SettledWrite(o: Oracle, w: World, e: Request, withRow: bool)
    requires Settled(w.tables, e)
    ensures var r := Write(o, w, e, withRow); r.w.tables == w.tables && !r.changed
  {
    hide InSync, SavedRow;
    if e.id in w.tables.requests {
      var stored, now := w.tables.requests[e.id], o.clock(Asked(w).asked);
      InSyncWritesNothing(stored, e, withRow, now);
      assert w.tables.requests[e.id := stored] == w.tables.requests;
      InSyncRow(e, stored);
    }
  }

  lemma InSyncRow(e: Request, stored: Request)
    requires InSync(e, stored)
    ensures !RowDiffers(stored, e)
  {
    hide ChildrenAgree;
  }

  /** Saving a settled entity, whatever the calls answer: no row changes, no hook runs, no add starts. */
  lemma SettledSave(o: Oracle, w: World, e: Request, depth: nat)
    requires Settled(w.tables, e)
    ensures var r := Save(o, w, e, depth); r.w.tables == w.tables && r.w.hooks == w.hooks && r.w.adds == w.adds
  {
    hide Write, AfterUpdate, Settled;
    var w0 := w.(deepest := Max(w.deepest, depth));
    SettledWrite(o, w0, e, true);
    WriteBounds(o, w0, e, true);
  }

  /** What a write without error leaves is settled. */
  lemma WriteSettles(o: Oracle, w: World, e: Request)
    requires ValidTables(w.tables) && (e.id in w.tables.requests ==> SameRequest(w.tables.requests[e.id], e))
    requires Write(o, w, e, true).ok
    ensures var r := Write(o, w, e, true); Settled(r.w.tables, r.e)
  {
    hide InSync, SavedChildren, ReloadedChildren, UniqueIds, RowDiffers;
    if e.id in w.tables.requests {
      SavedThenReloadedInSync(w.tables.requests[e.id], e, o.clock(Asked(w).asked));
    }
  }

  /** After a write without error, saving the reloaded entity again writes nothing and runs no hooks. */
  lemma WriteAgain(o: Oracle, w: World, e: Request, later: Oracle, depth: nat)
    requires ValidTables(w.tables) && (e.id in w.tables.requests ==> SameRequest(w.tables.requests[e.id], e))
    requires Write(o, w, e, true).ok
    ensures var r := Write(o, w, e, true);
            var again := Save(later, r.w, r.e, depth);
            again.w.tables == r.w.tables && again.w.hooks == r.w.hooks && again.w.adds == r.w.adds
  {
    hide Write, Save, Settled, ValidTables, SameRequest;
    WriteSettles(o, w, e);
    var r := Write(o, w, e, true);
    SettledSave(later, r.w, r.e, depth);
  }
}
