/** Seasons that active requests list, under every step and whatever the calls answer. */
module LifecycleSeasons {
  import opened Text
  import opened LifecycleRows
  import opened Lifecycle
  import opened LifecycleSaves
  import opened Removal
  import opened LifecycleRuns

  /** An active request of the media in the quality lists the season as a season row. */
  predicate ListedBy(t: Tables, id: int, mediaId: int, four: bool, number: int)
  {
    id in t.requests && t.requests[id].mediaId == Some(mediaId) && t.requests[id].is4k == four
    && Active(t.requests[id]) && Lists(t.requests[id].seasons, number)
  }

  /** A request other than `id` does. */
  predicate ListedWithout(t: Tables, id: int, mediaId: int, four: bool, number: int)
  {
    exists other :: other in t.requests && other != id && ListedBy(t, other, mediaId, four, number)
  }

  // ---------------------------------------------- what a save does not reset

  predicate SparesSeason(t: Tables, id: int, mediaId: int, s: MediaSeason, s': MediaSeason)
  {
    s'.id == s.id && s'.number == s.number
    && forall four :: ListedWithout(t, id, mediaId, four, s.number) ==> SeasonStatus(s', four) == SeasonStatus(s, four)
  }

  predicate SparesMedia(t: Tables, id: int, mediaId: int, m: Media, m': Media)
  {
    m'.id == m.id && |m'.seasons| == |m.seasons|
    && forall i :: 0 <= i < |m.seasons| ==> SparesSeason(t, id, mediaId, m.seasons[i], m'.seasons[i])
  }

  predicate SameIds(a: seq<Child>, b: seq<Child>) { |a| == |b| && forall i :: 0 <= i < |a| ==> a[i].id == b[i].id }

  predicate SameShape(a: Request, b: Request)
  {
    a.id == b.id && SameIds(a.seasons, b.seasons) && SameIds(a.episodes, b.episodes)
  }

  /** A step about the request `id`: other requests stay, and so do the seasons they list. */
  predicate Spares(t: Tables, t': Tables, id: int)
  {
    t'.requests.Keys == t.requests.Keys && t'.media.Keys == t.media.Keys
    && (forall k :: k in t.requests && k != id ==> t'.requests[k] == t.requests[k])
    && (id in t.requests ==> SameShape(t.requests[id], t'.requests[id]))
    && forall k :: k in t.media ==> SparesMedia(t, id, k, t.media[k], t'.media[k])
  }

  lemma SparesItself(t: Tables, id: int)
    ensures Spares(t, t, id)
  {
    hide ListedWithout;
  }

  /** The other requests list the same before and after. */
  lemma SameListed(t: Tables, t': Tables, id: int, mediaId: int, four: bool, number: int)
    requires t'.requests.Keys == t.requests.Keys
    requires forall k :: k in t.requests && k != id ==> t'.requests[k] == t.requests[k]
    ensures ListedWithout(t, id, mediaId, four, number) == ListedWithout(t', id, mediaId, four, number)
  {
    hide Lists, Active;
  }

  lemma SparesTwice(t: Tables, t1: Tables, t2: Tables, id: int)
    requires Spares(t, t1, id) && Spares(t1, t2, id)
    ensures Spares(t, t2, id)
  {
    hide ListedWithout;
    forall k | k in t.media ensures SparesMedia(t, id, k, t.media[k], t2.media[k]) {
      var m, m1, m2 := t.media[k], t1.media[k], t2.media[k];
      assert SparesMedia(t, id, k, m, m1) && SparesMedia(t1, id, k, m1, m2);
      forall i | 0 <= i < |m.seasons| ensures SparesSeason(t, id, k, m.seasons[i], m2.seasons[i]) {
        assert SparesSeason(t, id, k, m.seasons[i], m1.seasons[i])
            && SparesSeason(t1, id, k, m1.seasons[i], m2.seasons[i]);
        SameListed(t, t1, id, k, false, m.seasons[i].number);
        SameListed(t, t1, id, k, true, m.seasons[i].number);
      }
    }
  }

  /** A changed row of the request alone spares every season. */
  lemma RowSpares(t: Tables, id: int, r: Request)
    requires id in t.requests && SameShape(t.requests[id], r)
    ensures Spares(t, t.(requests := t.requests[id := r]), id)
  {
    hide ListedWithout, SameShape;
  }

  lemma SavedShape(stored: Request, e: Request, withRow: bool, now: int)
    ensures SameShape(stored, SavedRow(stored, e, withRow, now))
  {
    hide Find;
  }

  lemma WriteSpares(o: Oracle, w: World, e: Request, withRow: bool)
    ensures Spares(w.tables, Write(o, w, e, withRow).w.tables, e.id)
  {
    hide SavedRow, Spares, SameShape, RowDiffers, ReloadedChildren;
    SparesItself(w.tables, e.id);
    if e.id in w.tables.requests {
      var stored, now := w.tables.requests[e.id], o.clock(Asked(w).asked);
      SavedShape(stored, e, withRow, now);
      RowSpares(w.tables, e.id, SavedRow(stored, e, withRow, now));
    }
  }

  /** The parent's media row spares the seasons other requests list. */
  lemma ParentSparesMedia(t: Tables, m: Media, e: Request, mediaId: int)
    requires e.mediaId == Some(mediaId)
    ensures SparesMedia(t, e.id, mediaId, m, ParentMedia(t, m, e))
  {
    hide OtherPending, Lists, FirstOfNumber, Active;
    var m' := ParentMedia(t, m, e);
    forall i | 0 <= i < |m.seasons| ensures SparesSeason(t, e.id, mediaId, m.seasons[i], m'.seasons[i]) {
      ListedIsOther(t, e, mediaId, m.seasons[i].number);
    }
  }

  lemma ListedIsOther(t: Tables, e: Request, mediaId: int, number: int)
    requires e.mediaId == Some(mediaId)
    ensures ListedWithout(t, e.id, mediaId, e.is4k, number) == OtherLists(t, e, number)
  {
    hide Lists, Active;
  }

  lemma MediaSpares(t: Tables, id: int, k: int, m: Media)
    requires k in t.media && SparesMedia(t, id, k, t.media[k], m)
    ensures Spares(t, t.(media := t.media[k := m]), id)
  {
    hide ListedWithout;
    SparesItself(t, id);
  }

  lemma CommitSpares(o: Oracle, w: World, k: int, m: Media, e: Request, cascades: bool)
    requires k in w.tables.media && SparesMedia(w.tables, e.id, k, w.tables.media[k], m)
    ensures Spares(w.tables, CommitParent(o, w, k, m, e, cascades).w.tables, e.id)
  {
    hide SavedRow, Spares, SameShape, ReloadedChildren, SparesMedia;
    SparesItself(w.tables, e.id);
    MediaSpares(w.tables, e.id, k, m);
    if e.id in w.tables.requests {
      var stored, now := w.tables.requests[e.id], o.clock(w.asked);
      var t1 := WithMedia(Asked(w), k, m).tables;
      SavedShape(stored, e, false, now);
      RowSpares(t1, e.id, SavedRow(stored, e, false, now));
      SparesTwice(w.tables, t1, t1.(requests := t1.requests[e.id := SavedRow(stored, e, false, now)]), e.id);
    }
  }

  lemma ParentSpares(o: Oracle, w: World, e: Request)
    ensures Spares(w.tables, UpdateParent(o, w, e).w.tables, e.id)
  {
    hide CommitParent, ParentMedia, Spares, SparesMedia, WithChildStatus;
    SparesItself(w.tables, e.id);
    if HasMedia(w.tables, e) {
      var k := e.mediaId.value;
      var m := ParentMedia(w.tables, w.tables.media[k], e);
      ParentSparesMedia(w.tables, w.tables.media[k], e, k);
      CommitSpares(o, Asked(w), k, m, e, false);
      CommitSpares(o, Asked(Asked(w)), k, m, Cascaded(e), true);
    }
  }

  lemma SettledSaveSpares(o: Oracle, w: World, e: Request, depth: nat)
    requires e.status != APPROVED
    ensures Spares(w.tables, Save(o, w, e, depth).w.tables, e.id)
  {
    hide Write, UpdateParent, AfterUpdate, Spares;
    var w0 := w.(deepest := Max(w.deepest, depth));
    WriteBounds(o, w0, e, true);
    WriteSpares(o, w0, e, true);
    var wrote := Write(o, w0, e, true);
    SettledHooks(o, wrote.w, wrote.e, depth);
    var w1 := wrote.w.(hooks := wrote.w.hooks + 1);
    ParentSpares(o, w1, wrote.e);
    SparesTwice(w.tables, wrote.w.tables, UpdateParent(o, w1, wrote.e).w.tables, e.id);
  }

  lemma RadarrSpares(o: Oracle, w: World, e: Request, depth: nat)
    ensures Spares(w.tables, SendToRadarr(o, w, e, depth).w.tables, e.id)
  {
    hide Save, RadarrInner, Spares;
    SparesItself(w.tables, e.id);
    if e.status == APPROVED && e.kind == Movie {
      RadarrInnerBounds(o, w, e, depth);
      RadarrInnerSpares(o, w, e, depth);
      var inner := RadarrInner(o, w, e, depth);
      var failed := inner.e.(status := FAILED);
      SettledSaveSpares(o, Asked(inner.w), failed, depth + 1);
      SparesTwice(w.tables, inner.w.tables, Save(o, Asked(inner.w), failed, depth + 1).w.tables, e.id);
    }
  }

  lemma RadarrInnerSpares(o: Oracle, w: World, e: Request, depth: nat)
    requires e.status == APPROVED
    ensures Spares(w.tables, RadarrInner(o, w, e, depth).w.tables, e.id)
  {
    hide Save, Spares;
    SparesItself(w.tables, e.id);
    SettledSaveSpares(o, Asked(Asked(w)), e.(status := COMPLETED), depth + 1);
  }

  lemma SonarrInnerSpares(o: Oracle, w: World, e: Request, depth: nat)
    requires e.status == APPROVED
    ensures Spares(w.tables, SonarrInner(o, w, e, depth).w.tables, e.id)
  {
    hide Save, Spares, WithChildStatus;
    SparesItself(w.tables, e.id);
    SettledSaveSpares(o, Asked(Asked(w)), AllCompleted(e), depth + 1);
  }

  lemma QuietSpares(o: Oracle, w: World, e: Request)
    ensures Spares(w.tables, MarkFailedQuietly(o, w, e).w.tables, e.id)
  {
    hide Spares;
    SparesItself(w.tables, e.id);
    if e.id in w.tables.requests {
      RowSpares(w.tables, e.id, w.tables.requests[e.id].(status := FAILED, updatedAt := o.clock(w.asked)));
    }
  }

  lemma SonarrSpares(o: Oracle, w: World, e: Request, depth: nat)
    ensures Spares(w.tables, SendToSonarr(o, w, e, depth).w.tables, e.id)
  {
    hide SonarrInner, MarkFailedQuietly, Spares;
    SparesItself(w.tables, e.id);
    if e.status == APPROVED && e.kind == Tv {
      SonarrInnerBounds(o, w, e, depth);
      SonarrInnerSpares(o, w, e, depth);
      var inner := SonarrInner(o, w, e, depth);
      var failed := inner.e.(status := FAILED);
      QuietSpares(o, Asked(inner.w), failed);
      SparesTwice(w.tables, inner.w.tables, MarkFailedQuietly(o, Asked(inner.w), failed).w.tables, e.id);
    }
  }

  /** Whatever the calls answer, a save spares other requests and the seasons they list. */
  lemma SaveSpares(o: Oracle, w: World, e: Request, depth: nat)
    ensures Spares(w.tables, Save(o, w, e, depth).w.tables, e.id)
  {
    hide Write, UpdateParent, SendToRadarr, SendToSonarr, Spares;
    var w0 := w.(deepest := Max(w.deepest, depth));
    WriteBounds(o, w0, e, true);
    WriteSpares(o, w0, e, true);
    var wrote := Write(o, w0, e, true);
    var w1 := wrote.w.(hooks := wrote.w.hooks + 1);
    RadarrBounds(o, w1, wrote.e, depth);
    RadarrSpares(o, w1, wrote.e, depth);
    var radarr := SendToRadarr(o, w1, wrote.e, depth);
    SonarrBounds(o, radarr.w, radarr.e, depth);
    SonarrSpares(o, radarr.w, radarr.e, depth);
    var sonarr := SendToSonarr(o, radarr.w, radarr.e, depth);
    ParentSpares(o, sonarr.w, sonarr.e);
    SparesTwice(w.tables, wrote.w.tables, radarr.w.tables, e.id);
    SparesTwice(w.tables, radarr.w.tables, sonarr.w.tables, e.id);
    SparesTwice(w.tables, sonarr.w.tables, UpdateParent(o, sonarr.w, sonarr.e).w.tables, e.id);
  }

  lemma InsertSpares(o: Oracle, w: World, e: Request)
    ensures Spares(w.tables, AfterInsert(o, w, e).w.tables, e.id)
  {
    hide UpdateParent, SendToRadarr, SendToSonarr, Spares;
    RadarrBounds(o, w, e, 0);
    RadarrSpares(o, w, e, 0);
    var radarr := SendToRadarr(o, w, e, 0);
    SonarrBounds(o, radarr.w, radarr.e, 0);
    SonarrSpares(o, radarr.w, radarr.e, 0);
    var sonarr := SendToSonarr(o, radarr.w, radarr.e, 0);
    SparesTwice(w.tables, radarr.w.tables, sonarr.w.tables, e.id);
    var sent := if radarr.ok then sonarr else radarr;
    ParentSpares(o, sent.w, sent.e);
    SparesTwice(w.tables, sent.w.tables, UpdateParent(o, sent.w, sent.e).w.tables, e.id);
  }

  // -------------------------------------------------------------------- runs

  /** A step is about a request of the media: with the deletion of a media row, every one of its requests. */
  predicate Concerns(s: Step, id: int, mediaId: int)
  {
    match s
    case Insert(row) => id == row.id
    case Remove(ids) => id in ids
    case Forget(k, r) => id == r || mediaId == k
    case _ => id == s.id
  }

  predicate SeasonKept(t: Tables, t': Tables, mediaId: int, i: nat, four: bool)
  {
    mediaId in t.media && mediaId in t'.media && |t'.media[mediaId].seasons| == |t.media[mediaId].seasons|
    && (i < |t.media[mediaId].seasons| ==>
          SeasonStatus(t'.media[mediaId].seasons[i], four) == SeasonStatus(t.media[mediaId].seasons[i], four))
  }

  lemma SparesGood(t: Tables, t': Tables, id: int)
    requires Good(t) && Spares(t, t', id)
    ensures Good(t')
  {
    hide ListedWithout;
    forall k | k in t'.media ensures t'.media[k].id == k && UniqueSeasons(t'.media[k]) {
      SparedSeasonIds(t, id, k, t.media[k], t'.media[k]);
    }
  }

  lemma SparedSeasonIds(t: Tables, id: int, k: int, m: Media, m': Media)
    requires SparesMedia(t, id, k, m, m') && UniqueSeasons(m)
    ensures UniqueSeasons(m')
  {
    hide ListedWithout;
    forall i | 0 <= i < |m.seasons| ensures m'.seasons[i].id == m.seasons[i].id {
      assert SparesSeason(t, id, k, m.seasons[i], m'.seasons[i]);
    }
  }

  lemma SparedSeason(t: Tables, t': Tables, id: int, mediaId: int, i: nat, four: bool, other: int)
    requires Spares(t, t', id) && other != id && mediaId in t.media && i < |t.media[mediaId].seasons|
    requires ListedBy(t, other, mediaId, four, t.media[mediaId].seasons[i].number)
    ensures SeasonKept(t, t', mediaId, i, four)
  {
    hide Lists, Active;
    assert ListedWithout(t, id, mediaId, four, t.media[mediaId].seasons[i].number);
    assert SparesSeason(t, id, mediaId, t.media[mediaId].seasons[i], t'.media[mediaId].seasons[i]);
  }

  lemma RemoveKeepsListed(t: Tables, es: seq<Request>, mediaId: int, i: nat, four: bool, id: int)
    requires Good(t) && mediaId in t.media && i < |t.media[mediaId].seasons| && id !in IdsOf(es)
    requires ListedBy(t, id, mediaId, four, t.media[mediaId].seasons[i].number) && AfterRemoval(t, es).Some?
    ensures SeasonKept(t, AfterRemoval(t, es).value, mediaId, i, four)
  {
    hide Hooks, Lists, UniqueIds, IdsOf, Active;
    RemovalSeasons(t, es, mediaId, i, four);
    var m, gone := t.media[mediaId], IdsOf(es);
    assert Left(t, gone, m.id, four, id) && ListsAny(t.requests[id], m.seasons[i].number);
    assert StillListed(t, gone, m.id, four, m.seasons[i].number);
  }

  lemma {:induction false} LoadedIds(t: Tables, ids: seq<int>, id: int)
    requires id in IdsOf(Loaded(t, ids)) && ValidTables(t)
    ensures id in ids
    decreases |ids|
  {
    hide UniqueIds;
    if ids != [] {
      var rest, last := Loaded(t, ids[..|ids| - 1]), ids[|ids| - 1];
      if id != last {
        assert id in IdsOf(rest) by {
          var i :| 0 <= i < |Loaded(t, ids)| && Loaded(t, ids)[i].id == id;
          assert i < |rest| && rest[i].id == id;
        }
        LoadedIds(t, ids[..|ids| - 1], id);
      }
    }
  }

  /** The tables once an insert's rows are there. */
  function Inserted(o: Oracle, t: Tables, s: Step): Tables
  {
    if s.Insert? && o.db(0) && Insertable(t, s.row) then WithNew(t, s.row) else t
  }

  /** Every step that deletes nothing spares the other requests' seasons; an insert first adds its row. */
  lemma StepSpares(o: Oracle, t: Tables, s: Step)
    requires Good(t) && !s.Remove? && !s.Forget?
    ensures var t0 := Inserted(o, t, s);
            Good(t0) && Spares(t0, Next(o, t, s), if s.Insert? then s.row.id else s.id)
  {
    hide Save, Write, AfterInsert, MarkFailedQuietly, Spares, UniqueSeasons, UniqueIds;
    match s
    case Insert(row) =>
      SparesItself(t, row.id);
      if o.db(0) && Insertable(t, row) { NewMedia(t, row); InsertSpares(o, Begun(WithNew(t, row)), row); }
    case Act(id, from, to, viewer) =>
      SparesItself(t, id);
      if id in t.requests { SaveSpares(o, Start(t), t.requests[id].(status := to, modifiedBy := Some(viewer)), 0); }
    case LateSave(id, copy) =>
      SparesItself(t, id);
      if id in t.requests { SaveSpares(o, Start(t), OldCopy(t.requests[id], copy), 0); }
    case LateChildren(id, copy) =>
      SparesItself(t, id);
      if id in t.requests { WriteSpares(o, Start(t), OldCopy(t.requests[id], copy), false); }
    case LateFailure(id) =>
      SparesItself(t, id);
      if id in t.requests { QuietSpares(o, Start(t), t.requests[id]); }
  }

  lemma StepGood(o: Oracle, t: Tables, s: Step)
    requires Good(t)
    ensures Good(Next(o, t, s))
  {
    hide Save, Write, AfterInsert, MarkFailedQuietly, AfterRemoval, Good, Spares, UniqueSeasons, UniqueIds;
    if s.Remove? {
      if AfterRemoval(t, Loaded(t, s.ids)).Some? { RemovalGood(t, Loaded(t, s.ids)); }
    } else if s.Forget? {
      ForgetKeeps(t, s.mediaId, s.id);
    } else {
      StepSpares(o, t, s);
      SparesGood(Inserted(o, t, s), Next(o, t, s), if s.Insert? then s.row.id else s.id);
    }
  }

  /**
   * Whatever the calls answer, no step resets a season that an active request it is not about still lists as a
   * season row.
   */
  lemma ListedSeasonStays(o: Oracle, t: Tables, s: Step, mediaId: int, i: nat, four: bool, id: int)
    requires Good(t) && mediaId in t.media && i < |t.media[mediaId].seasons|
    requires ListedBy(t, id, mediaId, four, t.media[mediaId].seasons[i].number) && !Concerns(s, id, mediaId)
    ensures SeasonKept(t, Next(o, t, s), mediaId, i, four)
  {
    hide Save, Write, AfterInsert, MarkFailedQuietly, Lists, Active, AfterRemoval, UniqueSeasons, UniqueIds, IdsOf,
      Spares;
    if s.Remove? {
      if AfterRemoval(t, Loaded(t, s.ids)).Some? {
        if id in IdsOf(Loaded(t, s.ids)) { LoadedIds(t, s.ids, id); }
        RemoveKeepsListed(t, Loaded(t, s.ids), mediaId, i, four, id);
      }
    } else if !s.Forget? {
      StepSpares(o, t, s);
      var t0 := Inserted(o, t, s);
      if s.Insert? && Insertable(t, s.row) { NewMedia(t, s.row); }
      SparedSeason(t0, Next(o, t, s), if s.Insert? then s.row.id else s.id, mediaId, i, four, id);
    }
  }

  lemma {:induction false} RunGood(t: Tables, run: seq<(Oracle, Step)>)
    requires Good(t)
    ensures Good(After(t, run))
    decreases |run|
  {
    hide Next, Good;
    if run != [] {
      RunGood(t, run[..|run| - 1]);
      StepGood(run[|run| - 1].0, After(t, run[..|run| - 1]), run[|run| - 1].1);
    }
  }

  /** The same at every step of every run. */
  lemma ListedSeasonsStay(t: Tables, run: seq<(Oracle, Step)>, k: nat, mediaId: int, i: nat, four: bool, id: int)
    requires Good(t) && k < |run|
    requires var t1 := After(t, run[..k]);
             mediaId in t1.media && i < |t1.media[mediaId].seasons| && !Concerns(run[k].1, id, mediaId)
             && ListedBy(t1, id, mediaId, four, t1.media[mediaId].seasons[i].number)
    ensures SeasonKept(After(t, run[..k]), After(t, run[..k + 1]), mediaId, i, four)
  {
    hide Next, Good, ListedBy, SeasonKept, Concerns;
    RunGood(t, run[..k]);
    assert run[..k + 1][..k] == run[..k];
    ListedSeasonStays(run[k].0, After(t, run[..k]), run[k].1, mediaId, i, four, id);
  }
}
