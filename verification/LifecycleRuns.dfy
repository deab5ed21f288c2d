/** Runs of inserts, approvals, declines, retries, removals and background saves over one database. */
module LifecycleRuns {
  import opened Text
  import opened LifecycleRows
  import opened Lifecycle
  import opened LifecycleSaves
  import opened Removal

  // ------------------------------------------------- saves with a working database

  ghost predicate Works(o: Oracle) { forall n :: o.db(n) }

  /** The entity is a copy of its stored request, if there is one, in the columns no step changes. */
  predicate Known(t: Tables, e: Request) { e.id in t.requests ==> SameRequest(t.requests[e.id], e) }

  /** The step from one world and entity to the next kept media and other requests, and left the entity settled. */
  ghost predicate KeptOthers(t: Tables, t': Tables, e: Request, e': Request)
  {
    OnlyRequest(t, t', e.id) && ValidTables(t') && Settled(t', e') && SameRequest(e', e)
  }

  lemma WriteKeepsOthers(o: Oracle, w: World, e: Request)
    requires Works(o) && ValidTables(w.tables) && Known(w.tables, e)
    ensures var r := Write(o, w, e, true);
            r.ok && KeptOthers(w.tables, r.w.tables, e, r.e) && r.e.status == e.status
            && r.changed == (e.id in w.tables.requests && RowDiffers(w.tables.requests[e.id], e))
  {
    hide InSync, SavedRow, ReloadedChildren, UniqueIds, RowDiffers;
    if e.id in w.tables.requests {
      KeepsIds(w.tables.requests[e.id], e, true, o.clock(Asked(w).asked));
    }
    WriteSettles(o, w, e);
    WriteBounds(o, w, e, true);
  }

  /** What the parent's update leaves: the media row, and the request with its status. */
  ghost predicate ParentDone(t: Tables, t': Tables, e: Request, e': Request)
  {
    ValidTables(t') && Settled(t', e') && SameRequest(e', e) && e'.status == e.status
    && t'.requests.Keys == t.requests.Keys
    && (forall id :: id in t.requests && id != e.id ==> t'.requests[id] == t.requests[id])
    && t'.media == if HasMedia(t, e) then t.media[e.mediaId.value := ParentMedia(t, t.media[e.mediaId.value], e)]
       else t.media
  }

  lemma CommitDone(o: Oracle, w: World, id: int, m: Media, e: Request, cascades: bool)
    requires Works(o) && ValidTables(w.tables) && m.id == id
    requires e.id in w.tables.requests ==>
      SameRequest(w.tables.requests[e.id], e) && !RowDiffers(w.tables.requests[e.id], e)
    requires cascades || Settled(w.tables, e)
    ensures var r := CommitParent(o, w, id, m, e, cascades);
            r.ok && ValidTables(r.w.tables) && Settled(r.w.tables, r.e) && SameRequest(r.e, e) && r.e.status == e.status
            && r.w.tables.requests.Keys == w.tables.requests.Keys && r.w.tables.media == w.tables.media[id := m]
            && (forall other :: other in w.tables.requests && other != e.id ==>
                  r.w.tables.requests[other] == w.tables.requests[other])
  {
    hide ChildrenAgree, SavedChildren, ReloadedChildren, UniqueIds;
    if cascades && e.id in w.tables.requests {
      var stored, now := w.tables.requests[e.id], o.clock(w.asked);
      KeepsIds(stored, e, false, now);
      SavedThenReloadedAgree(e.seasons, stored.seasons, now);
      SavedThenReloadedAgree(e.episodes, stored.episodes, now);
    }
  }

  lemma ParentUpdated(o: Oracle, w: World, e: Request)
    requires Works(o) && ValidTables(w.tables) && Settled(w.tables, e)
    ensures var r := UpdateParent(o, w, e); r.ok && ParentDone(w.tables, r.w.tables, e, r.e)
  {
    hide CommitParent, ParentMedia, InSync, WithChildStatus;
    if HasMedia(w.tables, e) {
      var id := e.mediaId.value;
      var m := w.tables.media[id];
      ParentMediaId(w.tables, m, e);
      if e.id in w.tables.requests { InSyncRow(e, w.tables.requests[e.id]); }
      if Cascades(m, e) {
        CommitDone(o, Asked(Asked(w)), id, ParentMedia(w.tables, m, e), Cascaded(e), true);
      } else {
        CommitDone(o, Asked(w), id, ParentMedia(w.tables, m, e), e, false);
      }
    }
  }

  /** A save FAILED or COMPLETED changes its own request only. */
  lemma ClosingSave(o: Oracle, w: World, e: Request, depth: nat)
    requires Works(o) && ValidTables(w.tables) && Known(w.tables, e) && (e.status == FAILED || e.status == COMPLETED)
    ensures var r := Save(o, w, e, depth); r.ok && KeptOthers(w.tables, r.w.tables, e, r.e) && r.e.status == e.status
  {
    hide Write, UpdateParent, AfterUpdate, Settled, ValidTables, Known, SameRequest;
    var w0 := w.(deepest := Max(w.deepest, depth));
    WriteKeepsOthers(o, w0, e);
    var wrote := Write(o, w0, e, true);
    SettledHooks(o, wrote.w, wrote.e, depth);
    if wrote.changed {
      var w1 := wrote.w.(hooks := wrote.w.hooks + 1);
      ParentUpdated(o, w1, wrote.e);
      ClosedParent(w.tables, w1.tables, e, wrote.e, UpdateParent(o, w1, wrote.e).w.tables,
        UpdateParent(o, w1, wrote.e).e);
    }
  }

  lemma ClosedParent(t: Tables, t1: Tables, e: Request, e1: Request, t2: Tables, e2: Request)
    requires KeptOthers(t, t1, e, e1) && ParentDone(t1, t2, e1, e2) && (e1.status == FAILED || e1.status == COMPLETED)
    ensures KeptOthers(t, t2, e, e2)
  {
    hide Settled, InSync;
    assert t2.media == t1.media;
  }

  lemma KeptTwice(t: Tables, t1: Tables, t2: Tables, e: Request, e1: Request, e2: Request)
    requires KeptOthers(t, t1, e, e1) && KeptOthers(t1, t2, e1, e2)
    ensures KeptOthers(t, t2, e, e2)
  {
    hide Settled, ValidTables;
  }

  lemma KeptNothing(t: Tables, e: Request)
    requires ValidTables(t) && Settled(t, e)
    ensures KeptOthers(t, t, e, e) && Known(t, e)
  {
    hide InSync;
  }

  lemma RadarrInnerKeeps(o: Oracle, w: World, e: Request, depth: nat)
    requires Works(o) && ValidTables(w.tables) && Settled(w.tables, e) && e.status == APPROVED
    ensures var r := RadarrInner(o, w, e, depth); KeptOthers(w.tables, r.w.tables, e, r.e)
  {
    hide Save, Settled, ValidTables, Known, SameRequest, KeptOthers;
    KeptNothing(w.tables, e);
    var done := e.(status := COMPLETED);
    SameStatus(e, COMPLETED);
    SameKept(w.tables, e, done);
    ClosingSave(o, Asked(Asked(w)), done, depth + 1);
    var r := Save(o, Asked(Asked(w)), done, depth + 1);
    SameKept2(w.tables, r.w.tables, e, done, r.e);
  }

  /** A copy with another status stays known. */
  lemma SameKept(t: Tables, e: Request, e': Request)
    requires Known(t, e) && SameRequest(e, e')
    ensures Known(t, e')
  {
  }

  lemma SameKept2(t: Tables, t': Tables, e: Request, e1: Request, e2: Request)
    requires KeptOthers(t, t', e1, e2) && SameRequest(e, e1)
    ensures KeptOthers(t, t', e, e2)
  {
    hide Settled, ValidTables;
  }

  lemma KeptKnown(t: Tables, t': Tables, e: Request, e': Request)
    requires KeptOthers(t, t', e, e')
    ensures ValidTables(t') && Settled(t', e') && Known(t', e')
  {
    hide InSync;
  }

  lemma RadarrKeeps(o: Oracle, w: World, e: Request, depth: nat)
    requires Works(o) && ValidTables(w.tables) && Settled(w.tables, e)
    ensures var r := SendToRadarr(o, w, e, depth); KeptOthers(w.tables, r.w.tables, e, r.e)
  {
    hide Save, RadarrInner, Settled, ValidTables, Known, KeptOthers, SameRequest;
    KeptNothing(w.tables, e);
    if e.status == APPROVED && e.kind == Movie {
      RadarrInnerKeeps(o, w, e, depth);
      var inner := RadarrInner(o, w, e, depth);
      KeptKnown(w.tables, inner.w.tables, e, inner.e);
      var failed := inner.e.(status := FAILED);
      assert SameRequest(inner.e, failed) by { SameStatus(inner.e, FAILED); }
      SameKept(inner.w.tables, inner.e, failed);
      ClosingSave(o, Asked(inner.w), failed, depth + 1);
      var r := Save(o, Asked(inner.w), failed, depth + 1);
      SameKept2(inner.w.tables, r.w.tables, inner.e, failed, r.e);
      KeptTwice(w.tables, inner.w.tables, r.w.tables, e, inner.e, r.e);
    }
  }

  lemma SameStatus(e: Request, status: int)
    ensures SameRequest(e, e.(status := status))
  {
  }

  lemma SonarrInnerKeeps(o: Oracle, w: World, e: Request, depth: nat)
    requires Works(o) && ValidTables(w.tables) && Settled(w.tables, e) && e.status == APPROVED
    ensures var r := SonarrInner(o, w, e, depth); KeptOthers(w.tables, r.w.tables, e, r.e)
  {
    hide Save, Settled, ValidTables, Known, KeptOthers, WithChildStatus;
    KeptNothing(w.tables, e);
    var done := AllCompleted(e);
    SameKept(w.tables, e, done);
    ClosingSave(o, Asked(Asked(w)), done, depth + 1);
    var r := Save(o, Asked(Asked(w)), done, depth + 1);
    SameKept2(w.tables, r.w.tables, e, done, r.e);
  }

  /** `mark_failed_quietly` of a settled entity. */
  lemma QuietKeeps(o: Oracle, w: World, e: Request)
    requires Works(o) && ValidTables(w.tables) && Settled(w.tables, e)
    ensures var failed := e.(status := FAILED);
            var r := MarkFailedQuietly(o, w, failed);
            r.e == failed && KeptOthers(w.tables, r.w.tables, e, failed)
  {
    hide ChildrenAgree, UniqueIds;
  }

  lemma SonarrKeeps(o: Oracle, w: World, e: Request, depth: nat)
    requires Works(o) && ValidTables(w.tables) && Settled(w.tables, e)
    ensures var r := SendToSonarr(o, w, e, depth); KeptOthers(w.tables, r.w.tables, e, r.e)
  {
    hide SonarrInner, Settled, ValidTables, Known, KeptOthers, SameRequest, MarkFailedQuietly;
    KeptNothing(w.tables, e);
    if e.status == APPROVED && e.kind == Tv {
      SonarrInnerKeeps(o, w, e, depth);
      var inner := SonarrInner(o, w, e, depth);
      KeptKnown(w.tables, inner.w.tables, e, inner.e);
      var failed := inner.e.(status := FAILED);
      QuietKeeps(o, Asked(inner.w), inner.e);
      KeptTwice(w.tables, inner.w.tables, MarkFailedQuietly(o, Asked(inner.w), failed).w.tables, e, inner.e, failed);
    }
  }

  predicate SameNumbers(a: seq<Child>, b: seq<Child>)
  {
    |a| == |b| && forall i :: 0 <= i < |a| ==> a[i].number == b[i].number
  }

  lemma WriteKeepsNumbers(o: Oracle, w: World, e: Request)
    ensures SameNumbers(Write(o, w, e, true).e.seasons, e.seasons)
  {
    hide SavedRow, RowDiffers;
  }

  /** The statuses the sends can leave. */
  predicate SentTo(before: int, after: int)
  {
    after == before || (before == APPROVED && (after == FAILED || after == COMPLETED))
  }

  lemma RadarrStatus(o: Oracle, w: World, e: Request, depth: nat)
    ensures SentTo(e.status, SendToRadarr(o, w, e, depth).e.status)
  {
    hide Save, MediaAt;
    SettledSaveBounds(o, Asked(Asked(w)), e.(status := COMPLETED), depth + 1);
    if e.status == APPROVED {
      var inner := RadarrInner(o, w, e, depth);
      SettledSaveBounds(o, Asked(inner.w), inner.e.(status := FAILED), depth + 1);
    }
  }

  lemma SonarrStatus(o: Oracle, w: World, e: Request, depth: nat)
    ensures SentTo(e.status, SendToSonarr(o, w, e, depth).e.status)
  {
    hide Save, MediaAt, WithChildStatus;
    SettledSaveBounds(o, Asked(Asked(w)), AllCompleted(e), depth + 1);
  }

  /** No outside step goes on: no Radarr or Sonarr server is configured. */
  ghost predicate Unconfigured(o: Oracle) { forall n :: !o.ext(n) }

  lemma SkippedSends(o: Oracle, w: World, e: Request, depth: nat)
    requires Unconfigured(o)
    ensures SendToRadarr(o, w, e, depth).e == e && SendToSonarr(o, w, e, depth).e == e
  {
    hide Save, MediaAt;
  }

  /**
   * A save with a working database: it leaves the entity settled and touches its own request only, until the hooks,
   * which run exactly when the row differed, bring its last status to the media row.
   */
  lemma SaveRuns(o: Oracle, w: World, e: Request, depth: nat) returns (mid: Tables, e': Request)
    requires Works(o) && ValidTables(w.tables) && Known(w.tables, e)
    ensures var r := Save(o, w, e, depth);
            var changed := e.id in w.tables.requests && RowDiffers(w.tables.requests[e.id], e);
            r.ok && KeptOthers(w.tables, mid, e, e')
            && (if changed then ParentDone(mid, r.w.tables, e', r.e)
                else r.w.tables == mid && r.e == e' && r.e.status == e.status)
    ensures SentTo(e.status, e'.status) && (e.status != APPROVED ==> SameNumbers(e'.seasons, e.seasons))
    ensures Unconfigured(o) ==> e'.status == e.status
  {
    hide Write, UpdateParent, SendToRadarr, SendToSonarr, Settled, ValidTables, Known, KeptOthers, SameRequest,
      ParentDone;
    var w0 := w.(deepest := Max(w.deepest, depth));
    WriteKeepsOthers(o, w0, e);
    var wrote := Write(o, w0, e, true);
    WriteKeepsNumbers(o, w0, e);
    KeptKnown(w.tables, wrote.w.tables, e, wrote.e);
    mid, e' := wrote.w.tables, wrote.e;
    if wrote.changed {
      var w1 := wrote.w.(hooks := wrote.w.hooks + 1);
      RadarrKeeps(o, w1, wrote.e, depth);
      var radarr := SendToRadarr(o, w1, wrote.e, depth);
      KeptKnown(w1.tables, radarr.w.tables, wrote.e, radarr.e);
      SonarrKeeps(o, radarr.w, radarr.e, depth);
      var sonarr := SendToSonarr(o, radarr.w, radarr.e, depth);
      KeptKnown(radarr.w.tables, sonarr.w.tables, radarr.e, sonarr.e);
      KeptTwice(w.tables, wrote.w.tables, radarr.w.tables, e, wrote.e, radarr.e);
      KeptTwice(w.tables, radarr.w.tables, sonarr.w.tables, e, radarr.e, sonarr.e);
      ParentUpdated(o, sonarr.w, sonarr.e);
      RadarrStatus(o, w1, wrote.e, depth);
      SonarrStatus(o, radarr.w, radarr.e, depth);
      mid, e' := sonarr.w.tables, sonarr.e;
      if Unconfigured(o) {
        SkippedSends(o, w1, wrote.e, depth);
        SkippedSends(o, radarr.w, radarr.e, depth);
      }
      if e.status != APPROVED { SettledSends(o, w1, wrote.e, depth); }
    }
  }

  lemma SettledSends(o: Oracle, w: World, e: Request, depth: nat)
    requires e.status != APPROVED
    ensures SendToRadarr(o, w, e, depth) == Outcome(w, e, true) && SendToSonarr(o, w, e, depth) == Outcome(w, e, true)
  {
  }

  /**
   * After a whole save with a working database, saving the entity again writes nothing, runs no hook, starts no add.
   */
  lemma SaveAgain(o: Oracle, w: World, e: Request, depth: nat, later: Oracle, depth': nat)
    requires Works(o) && ValidTables(w.tables) && Known(w.tables, e)
    ensures var r := Save(o, w, e, depth);
            var again := Save(later, r.w, r.e, depth');
            again.w.tables == r.w.tables && again.w.hooks == r.w.hooks && again.w.adds == r.w.adds
  {
    hide Save, Settled, ValidTables, Known, SameRequest, OnlyRequest;
    var mid, e' := SaveRuns(o, w, e, depth);
    SettledSave(later, Save(o, w, e, depth).w, Save(o, w, e, depth).e, depth');
  }

  // ------------------------------------------------------------------- runs

  /**
   * What happens to the requests: the routes' actions, removals, what background adds write later, and a media row
   * deleted with its requests, as a send to Sonarr does when it finds no TVDB id.
   */
  datatype Step =
    | Insert(row: Request)
    | Act(id: int, from: int, to: int, viewer: int)
    | Remove(ids: seq<int>)
    | LateSave(id: int, copy: Request)
    | LateChildren(id: int, copy: Request)
    | LateFailure(id: int)
    | Forget(mediaId: int, id: int)

  function Start(t: Tables): World { World(t, 0, 0, 0, 0) }

  /** A background add's older copy of a stored request, to be saved FAILED or COMPLETED. */
  function OldCopy(stored: Request, copy: Request): Request
  {
    stored.(status := if copy.status == COMPLETED then COMPLETED else FAILED, modifiedBy := copy.modifiedBy,
            seasons := copy.seasons, episodes := copy.episodes)
  }

  /** `media_plan`: the status of the request's quality leaves UNKNOWN and DELETED for PENDING. */
  function Bumped(m: Media, four: bool): Media
  {
    if StatusOf(m, four) == M_UNKNOWN || StatusOf(m, four) == M_DELETED then WithStatus(m, four, M_PENDING) else m
  }

  /** The media row an inserted request references: bumped, or new and PENDING in its quality. */
  function InsertedMedia(t: Tables, k: int, r: Request): Media
  {
    if k in t.media then Bumped(t.media[k], r.is4k)
    else WithStatus(Media(k, r.kind == Tv, M_UNKNOWN, M_UNKNOWN, []), r.is4k, M_PENDING)
  }

  /**
   * A request that can be inserted: a new id, child rows with ids of their own, and a media row that isn't
   * blocklisted or is new, so that no request references it yet.
   */
  predicate Insertable(t: Tables, r: Request)
  {
    r.id !in t.requests && UniqueIds(r.seasons) && UniqueIds(r.episodes) && r.mediaId.Some?
    && (if r.mediaId.value in t.media then t.media[r.mediaId.value].status != M_BLOCKLISTED
        else forall id :: id in t.requests ==> t.requests[id].mediaId != r.mediaId)
  }

  /** The tables after the insert's transaction: the media row and the request. */
  function WithNew(t: Tables, r: Request): Tables
    requires r.mediaId.Some?
  {
    Tables(t.requests[r.id := r], t.media[r.mediaId.value := InsertedMedia(t, r.mediaId.value, r)])
  }

  /** The world once that transaction, the step's first call, committed. */
  function Begun(t: Tables): World { World(t, 1, 0, 0, 0) }

  /** The media row deleted, with its requests by their foreign key, and the request. */
  function Forgotten(t: Tables, mediaId: int, id: int): Tables
  {
    Tables(map r | r in t.requests && r != id && t.requests[r].mediaId != Some(mediaId) :: t.requests[r],
           t.media - {mediaId})
  }

  /** The tables after a step; each step has its own oracle. */
  function Next(o: Oracle, t: Tables, s: Step): Tables
  {
    match s
    case Insert(row) =>
      if o.db(0) && Insertable(t, row) then AfterInsert(o, Begun(WithNew(t, row)), row).w.tables else t
    case Act(id, from, to, viewer) =>
      if id in t.requests && t.requests[id].status == from
      then Save(o, Start(t), t.requests[id].(status := to, modifiedBy := Some(viewer)), 0).w.tables else t
    case Remove(ids) => (var r := AfterRemoval(t, Loaded(t, ids)); if o.db(0) && r.Some? then r.value else t)
    case LateSave(id, copy) =>
      if id in t.requests then Save(o, Start(t), OldCopy(t.requests[id], copy), 0).w.tables else t
    case LateChildren(id, copy) =>
      if id in t.requests then Write(o, Start(t), OldCopy(t.requests[id], copy), false).w.tables else t
    case LateFailure(id) =>
      if id in t.requests then MarkFailedQuietly(o, Start(t), t.requests[id]).w.tables else t
    case Forget(mediaId, id) => if o.db(0) then Forgotten(t, mediaId, id) else t
  }

  function After(t: Tables, run: seq<(Oracle, Step)>): Tables
  {
    if run == [] then t
    else var last := run[|run| - 1]; Next(last.0, After(t, run[..|run| - 1]), last.1)
  }

  /** An APPROVED request of a series has the media underway in its quality. */
  predicate Held(t: Tables, r: Request)
  {
    r.status == APPROVED && HasMedia(t, r) && t.media[r.mediaId.value].isTv
    ==> Underway(StatusOf(t.media[r.mediaId.value], r.is4k))
  }

  /** Every APPROVED request of a series but the excepted one. */
  predicate Steady(t: Tables, excepted: Option<int>)
  {
    forall id :: id in t.requests && excepted != Some(id) ==> Held(t, t.requests[id])
  }

  /** Valid tables, with unique season ids. */
  ghost predicate Good(t: Tables)
  {
    ValidTables(t) && forall id :: id in t.media ==> UniqueSeasons(t.media[id])
  }

  lemma OnlyRequestSteady(t: Tables, t': Tables, id: int)
    requires OnlyRequest(t, t', id) && Steady(t, None)
    ensures Steady(t', Some(id))
  {
  }

  lemma ParentMediaStatus(t: Tables, m: Media, e: Request, four: bool)
    ensures var m' := ParentMedia(t, m, e);
            m'.isTv == m.isTv
            && (four == e.is4k && e.status == APPROVED ==> Underway(StatusOf(m', four)))
            && (Underway(StatusOf(m, four)) && (m.isTv || four != e.is4k || e.status != DECLINED)
               ==> Underway(StatusOf(m', four)))
  {
    hide OtherPending, DeclinedSeasons;
  }

  /** The parent's update makes the excepted request's media underway again, and takes it from no other. */
  lemma ParentSteady(t: Tables, t': Tables, e: Request, e': Request)
    requires ParentDone(t, t', e, e') && Steady(t, Some(e.id))
    ensures Steady(t', None)
  {
    hide ParentMedia, InSync, ValidTables, Underway;
    forall id | id in t'.requests ensures Held(t', t'.requests[id]) {
      var r := t'.requests[id];
      if HasMedia(t, e) { ParentMediaStatus(t, t.media[e.mediaId.value], e, r.is4k); }
      if id != e.id {
        assert Held(t, t.requests[id]);
      } else {
        InSyncRow(e', r);
      }
    }
  }

  lemma SaveSteady(o: Oracle, t: Tables, e: Request)
    requires Works(o) && Good(t) && Known(t, e) && Steady(t, None)
    ensures var t' := Save(o, Start(t), e, 0).w.tables; Good(t') && Steady(t', None)
  {
    hide Save, ParentMedia, InSync, SameRequest, Held, UniqueSeasons;
    var mid, e' := SaveRuns(o, Start(t), e, 0);
    var r := Save(o, Start(t), e, 0);
    OwnRow(t, mid, e, e');
    OnlyRequestSteady(t, mid, e.id);
    if e.id in t.requests && RowDiffers(t.requests[e.id], e) {
      ParentSteady(mid, r.w.tables, e', r.e);
      ParentGood(mid, r.w.tables, e', r.e);
    } else if e.id in t.requests {
      InSyncRow(e', mid.requests[e.id]);
      SameHeld(t, mid, e.id);
    }
  }

  lemma OwnRow(t: Tables, t': Tables, e: Request, e': Request)
    requires KeptOthers(t, t', e, e') && Known(t, e)
    ensures e'.id == e.id
    ensures e.id in t.requests ==> e.id in t'.requests && SameRequest(t.requests[e.id], t'.requests[e.id])
  {
    hide InSync, ValidTables;
  }

  lemma SameHeld(t: Tables, t': Tables, id: int)
    requires OnlyRequest(t, t', id) && id in t.requests && Held(t, t.requests[id])
    requires SameRequest(t.requests[id], t'.requests[id]) && t'.requests[id].status == t.requests[id].status
    ensures Held(t', t'.requests[id])
  {
  }

  lemma ParentGood(t: Tables, t': Tables, e: Request, e': Request)
    requires ParentDone(t, t', e, e') && Good(t)
    ensures Good(t')
  {
    hide ParentMedia, InSync, UniqueSeasons, ValidTables;
    forall id | id in t'.media ensures UniqueSeasons(t'.media[id]) {
      assert UniqueSeasons(t.media[id]);
      if t'.media[id] != t.media[id] { ParentSeasonIds(t, t.media[id], e); }
    }
  }

  lemma ParentSeasonIds(t: Tables, m: Media, e: Request)
    requires UniqueSeasons(m)
    ensures UniqueSeasons(ParentMedia(t, m, e))
  {
    hide OtherPending, Resets;
  }

  /** An inserted row is settled, and the excepted one. */
  lemma NewRow(t: Tables, r: Request)
    requires ValidTables(t) && Insertable(t, r)
    ensures ValidTables(WithNew(t, r)) && Settled(WithNew(t, r), r)
  {
    hide UniqueIds, Find;
    OwnAgree(r.seasons);
    OwnAgree(r.episodes);
  }

  /** The insert's media write keeps season rows, and takes no media from underway. */
  lemma NewMedia(t: Tables, r: Request)
    requires Insertable(t, r)
    ensures forall k :: k in t.media ==> WithNew(t, r).media[k].seasons == t.media[k].seasons
    ensures Good(t) ==> Good(WithNew(t, r))
    ensures Steady(t, None) ==> Steady(WithNew(t, r), Some(r.id))
  {
    hide UniqueIds;
    var t' := WithNew(t, r);
    assert forall k :: k in t'.media && k !in t.media ==> t'.media[k].seasons == [];
    if Steady(t, None) {
      forall id | id in t'.requests && id != r.id ensures Held(t', t'.requests[id]) {
        assert Held(t, t.requests[id]);
      }
    }
  }

  lemma OwnAgree(rows: seq<Child>)
    requires UniqueIds(rows)
    ensures ChildrenAgree(rows, rows)
  {
    forall i | 0 <= i < |rows| ensures Find(rows, rows[i].id) == Some(rows[i]) { FindOwn(rows, i); }
  }

  /**
   * The hooks of an insert with a working database: the sends touch the new request only, then its parent is updated.
   */
  lemma InsertRuns(o: Oracle, w: World, e: Request) returns (mid: Tables, e': Request)
    requires Works(o) && ValidTables(w.tables) && Settled(w.tables, e)
    ensures var r := AfterInsert(o, w, e); KeptOthers(w.tables, mid, e, e') && ParentDone(mid, r.w.tables, e', r.e)
    ensures Unconfigured(o) ==> e'.status == e.status
  {
    hide SendToRadarr, SendToSonarr, UpdateParent, Settled, ValidTables, Known, KeptOthers, SameRequest, ParentDone;
    RadarrKeeps(o, w, e, 0);
    var radarr := SendToRadarr(o, w, e, 0);
    KeptKnown(w.tables, radarr.w.tables, e, radarr.e);
    SonarrKeeps(o, radarr.w, radarr.e, 0);
    var sonarr := SendToSonarr(o, radarr.w, radarr.e, 0);
    KeptKnown(radarr.w.tables, sonarr.w.tables, radarr.e, sonarr.e);
    KeptTwice(w.tables, radarr.w.tables, sonarr.w.tables, e, radarr.e, sonarr.e);
    var sent := if radarr.ok then sonarr else radarr;
    if Unconfigured(o) {
      SkippedSends(o, w, e, 0);
      SkippedSends(o, radarr.w, radarr.e, 0);
    }
    ParentUpdated(o, sent.w, sent.e);
    mid, e' := sent.w.tables, sent.e;
  }

  lemma InsertSteady(o: Oracle, t: Tables, r: Request)
    requires Works(o) && Good(t) && Insertable(t, r) && Steady(t, None)
    ensures var t' := AfterInsert(o, Begun(WithNew(t, r)), r).w.tables; Good(t') && Steady(t', None)
  {
    hide AfterInsert, ParentMedia, InSync, Held, UniqueSeasons, UniqueIds, ParentDone;
    NewRow(t, r);
    NewMedia(t, r);
    var mid, e' := InsertRuns(o, Begun(WithNew(t, r)), r);
    SameHeldOthers(WithNew(t, r), mid, r.id);
    var after := AfterInsert(o, Begun(WithNew(t, r)), r);
    ParentSteady(mid, after.w.tables, e', after.e);
    ParentGood(mid, after.w.tables, e', after.e);
  }

  lemma SameHeldOthers(t: Tables, t': Tables, id: int)
    requires OnlyRequest(t, t', id) && Steady(t, Some(id))
    ensures Steady(t', Some(id))
  {
  }

  /** A step that left its request no newly APPROVED. */
  lemma NoNewApproval(t: Tables, t': Tables, id: int)
    requires Steady(t, None) && OnlyRequest(t, t', id) && id in t.requests
    requires SameRequest(t.requests[id], t'.requests[id])
    requires t'.requests[id].status == APPROVED ==> t.requests[id].status == APPROVED
    ensures Steady(t', None)
  {
    assert Held(t, t.requests[id]);
  }

  lemma LateChildrenKeep(o: Oracle, t: Tables, id: int, copy: Request)
    requires Works(o) && Good(t) && Steady(t, None) && id in t.requests
    ensures var t' := Next(o, t, LateChildren(id, copy)); t'.media == t.media && Good(t') && Steady(t', None)
  {
    hide SavedChildren, ReloadedChildren, UniqueIds, UniqueSeasons, Held, Steady;
    var t', e := Next(o, t, LateChildren(id, copy)), OldCopy(t.requests[id], copy);
    KeepsIds(t.requests[id], e, false, o.clock(1));
    assert e.id == id;
    assert OnlyRequest(t, t', id);
    NoNewApproval(t, t', id);
  }

  lemma LateFailureKeeps(o: Oracle, t: Tables, id: int)
    requires Works(o) && Good(t) && Steady(t, None) && id in t.requests
    ensures var t' := Next(o, t, LateFailure(id)); t'.media == t.media && Good(t') && Steady(t', None)
  {
    hide UniqueIds, UniqueSeasons, Held, Steady;
    var t' := Next(o, t, LateFailure(id));
    assert t.requests[id].id == id;
    assert OnlyRequest(t, t', id);
    NoNewApproval(t, t', id);
  }

  lemma RemovalGood(t: Tables, es: seq<Request>)
    requires Good(t) && AfterRemoval(t, es).Some?
    ensures Good(AfterRemoval(t, es).value)
  {
    hide Hooks, PutBack, UniqueSeasons, UniqueIds;
    var t' := AfterRemoval(t, es).value;
    forall k | k in t'.media ensures t'.media[k].id == k && UniqueSeasons(t'.media[k]) {
      MediaId(t, k);
      RemovalIds(t, es, k);
    }
  }

  lemma RemovalSteady(t: Tables, es: seq<Request>)
    requires Good(t) && Steady(t, None) && AfterRemoval(t, es).Some?
    ensures Steady(AfterRemoval(t, es).value, None)
  {
    hide Hooks, FallenStatus, UniqueSeasons, UniqueIds;
    var t', gone := AfterRemoval(t, es).value, IdsOf(es);
    forall id | id in t'.requests ensures Held(t', t'.requests[id]) {
      var r := t.requests[id];
      if HasMedia(t, r) && r.status == APPROVED {
        MediaId(t, r.mediaId.value);
        RemovalOutcome(t, es, r.mediaId.value, r.is4k);
        LeftKeepsStatus(t, gone, t.media[r.mediaId.value], r.is4k, id);
        assert Held(t, r);
      }
    }
  }

  /** An active request that stays keeps the media's status in its quality. */
  lemma LeftKeepsStatus(t: Tables, gone: set<int>, m: Media, four: bool, id: int)
    requires Left(t, gone, m.id, four, id) && Active(t.requests[id])
    ensures FallenStatus(t, gone, m, four) == StatusOf(m, four)
  {
    hide HadCompleted;
  }

  lemma RemovalIds(t: Tables, es: seq<Request>, k: int)
    requires Good(t) && k in t.media && AfterRemoval(t, es).Some?
    ensures UniqueSeasons(AfterRemoval(t, es).value.media[k])
  {
    hide Hooks, PutBack, IdsOf;
    var m, m' := t.media[k], AfterRemoval(t, es).value.media[k];
    assert UniqueSeasons(m);
    forall i | 0 <= i < |m.seasons| ensures |m'.seasons| == |m.seasons| && m'.seasons[i].id == m.seasons[i].id {
      RemovalSeasons(t, es, k, i, false);
    }
  }

  lemma ForgetKeeps(t: Tables, mediaId: int, id: int)
    requires Good(t)
    ensures var t' := Forgotten(t, mediaId, id); Good(t') && (Steady(t, None) ==> Steady(t', None))
  {
    hide UniqueSeasons, UniqueIds;
    var t' := Forgotten(t, mediaId, id);
    if Steady(t, None) {
      forall k | k in t'.requests ensures Held(t', t'.requests[k]) { assert Held(t, t.requests[k]); }
    }
  }

  lemma StepSteady(o: Oracle, t: Tables, s: Step)
    requires Works(o) && Good(t) && Steady(t, None)
    ensures Good(Next(o, t, s)) && Steady(Next(o, t, s), None)
  {
    hide Save, Write, AfterInsert, MarkFailedQuietly, Steady, AfterRemoval, UniqueSeasons, UniqueIds;
    match s
    case Insert(row) => if Insertable(t, row) { InsertSteady(o, t, row); }
    case Act(id, from, to, viewer) =>
      if id in t.requests { SaveSteady(o, t, t.requests[id].(status := to, modifiedBy := Some(viewer))); }
    case Remove(ids) =>
      if AfterRemoval(t, Loaded(t, ids)).Some? {
        RemovalGood(t, Loaded(t, ids));
        RemovalSteady(t, Loaded(t, ids));
      }
    case LateSave(id, copy) => if id in t.requests { SaveSteady(o, t, OldCopy(t.requests[id], copy)); }
    case LateChildren(id, copy) => if id in t.requests { LateChildrenKeep(o, t, id, copy); }
    case LateFailure(id) => if id in t.requests { LateFailureKeeps(o, t, id); }
    case Forget(mediaId, id) => ForgetKeeps(t, mediaId, id);
  }

  /**
   * Over every run with a working database, whatever the servers answer: while a request of a series is APPROVED,
   * the media's status in its quality is PROCESSING, PARTIAL or AVAILABLE.
   */
  lemma {:induction false} ApprovedStaysUnderway(t: Tables, run: seq<(Oracle, Step)>)
    requires Good(t) && Steady(t, None) && forall k :: 0 <= k < |run| ==> Works(run[k].0)
    ensures Good(After(t, run)) && Steady(After(t, run), None)
    decreases |run|
  {
    hide Next, Works, Good, Steady;
    if run != [] {
      ApprovedStaysUnderway(t, run[..|run| - 1]);
      StepSteady(run[|run| - 1].0, After(t, run[..|run| - 1]), run[|run| - 1].1);
    }
  }
}
