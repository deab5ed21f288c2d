/** What each step of a run does, in terms of the stored rows and their columns alone. */
module LifecycleLaws {
  import opened Text
  import opened LifecycleRows
  import opened Lifecycle
  import opened LifecycleSaves
  import opened Removal
  import opened LifecycleRuns
  import opened LifecycleOutcomes
  import opened LifecycleSends

  /** The column of a quality. */
  function Column(m: Media, four: bool): (r: int)
    ensures four ==> r == m.status4k
    ensures !four ==> r == m.status
  {
    StatusOf(m, four)
  }

  function SeasonColumn(s: MediaSeason, four: bool): (r: int)
    ensures four ==> r == s.status4k
    ensures !four ==> r == s.status
  {
    SeasonStatus(s, four)
  }

  // -------------------------------------------------------------------- runs

  /** Over every run: an APPROVED request of a series has its media PROCESSING, PARTIAL or AVAILABLE. */
  lemma ApprovedMediaColumn(t: Tables, run: seq<(Oracle, Step)>, id: int)
    requires Good(t) && Steady(t, None) && forall k :: 0 <= k < |run| ==> Works(run[k].0)
    requires var t' := After(t, run); id in t'.requests && t'.requests[id].status == APPROVED
    ensures var t' := After(t, run);
            var r := t'.requests[id];
            r.mediaId.Some? && r.mediaId.value in t'.media && t'.media[r.mediaId.value].isTv ==>
              Column(t'.media[r.mediaId.value], r.is4k) in {M_PROCESSING, M_PARTIAL, M_AVAILABLE}
  {
    hide After, Good;
    ApprovedStaysUnderway(t, run);
    assert Held(After(t, run), After(t, run).requests[id]);
  }

  /** An approval that stays APPROVED makes its media PROCESSING unless it is underway; nothing else of it changes. */
  lemma ApprovalColumn(o: Oracle, t: Tables, id: int, from: int, viewer: int)
    requires Works(o) && Good(t) && id in t.requests && HasMedia(t, t.requests[id])
        && t.requests[id].status == from != APPROVED
    ensures var r, t' := t.requests[id], Next(o, t, Act(id, from, APPROVED, viewer));
            var m := t.media[r.mediaId.value];
            r.mediaId.value in t'.media && id in t'.requests
            && (var m' := t'.media[r.mediaId.value];
                Column(m', r.is4k) == (if t'.requests[id].status != APPROVED || Column(m, r.is4k) == M_PROCESSING
                                          || Column(m, r.is4k) == M_PARTIAL || Column(m, r.is4k) == M_AVAILABLE
                                       then Column(m, r.is4k) else M_PROCESSING)
                && Column(m', !r.is4k) == Column(m, !r.is4k) && m'.seasons == m.seasons)
  {
    hide Next, Good;
    ApproveOutcome(o, t, id, from, viewer);
  }

  // ----------------------------------------------------------------- declines

  /**
   * A series' decline: its column goes from PENDING to UNKNOWN exactly when no other request of the media and quality
   * is PENDING.
   */
  lemma DeclineColumn(o: Oracle, t: Tables, id: int, viewer: int)
    requires Works(o) && Good(t) && CanDecline(t, id) && t.media[t.requests[id].mediaId.value].isTv
    ensures var r, t' := t.requests[id], Next(o, t, Act(id, PENDING, DECLINED, viewer));
            var m := t.media[r.mediaId.value];
            var pending := exists other :: other in t.requests && other != id && t.requests[other].mediaId == r.mediaId
                                           && t.requests[other].is4k == r.is4k && t.requests[other].status == PENDING;
            r.mediaId.value in t'.media
            && Column(t'.media[r.mediaId.value], r.is4k)
               == if Column(m, r.is4k) == M_PENDING && !pending then M_UNKNOWN else Column(m, r.is4k)
  {
    hide Next, Resets;
    DeclineOutcome(o, t, id, viewer);
    OwnId(t, id);
  }

  /**
   * And a season's does exactly when one of its season rows lists it, it is the first of its number, and no other
   * request of the media and quality that is neither DECLINED nor COMPLETED has a season row of it.
   */
  lemma DeclineSeasonColumn(o: Oracle, t: Tables, id: int, viewer: int, i: nat)
    requires Works(o) && Good(t) && CanDecline(t, id) && t.media[t.requests[id].mediaId.value].isTv
    requires i < |t.media[t.requests[id].mediaId.value].seasons|
    ensures var r, t' := t.requests[id], Next(o, t, Act(id, PENDING, DECLINED, viewer));
            var m := t.media[r.mediaId.value];
            var s := m.seasons[i];
            var listed := exists c :: c in r.seasons && c.number == s.number;
            var first := forall j :: 0 <= j < i ==> m.seasons[j].number != s.number;
            var others := exists other, c :: other in t.requests && other != id
                            && t.requests[other].mediaId == r.mediaId && t.requests[other].is4k == r.is4k
                            && t.requests[other].status != DECLINED && t.requests[other].status != COMPLETED
                            && c in t.requests[other].seasons && c.number == s.number;
            r.mediaId.value in t'.media && i < |t'.media[r.mediaId.value].seasons|
            && SeasonColumn(t'.media[r.mediaId.value].seasons[i], r.is4k)
               == if SeasonColumn(s, r.is4k) == M_PENDING && listed && first && !others then M_UNKNOWN
                  else SeasonColumn(s, r.is4k)
  {
    hide Next, OtherPending;
    var r := t.requests[id];
    var s := t.media[r.mediaId.value].seasons[i];
    DeclineOutcome(o, t, id, viewer);
    OwnId(t, id);
    HasRow(r.seasons, s.number);
    if OtherLists(t, r, s.number) {
      var other :| other in t.requests && other != r.id && t.requests[other].mediaId == r.mediaId
                   && t.requests[other].is4k == r.is4k && Active(t.requests[other])
                   && Lists(t.requests[other].seasons, s.number);
      HasRow(t.requests[other].seasons, s.number);
    }
    forall other, c | other in t.requests && c in t.requests[other].seasons && c.number == s.number
      ensures Lists(t.requests[other].seasons, s.number)
    {
      HasRow(t.requests[other].seasons, s.number);
    }
  }

  lemma HasRow(rows: seq<Child>, number: int)
    ensures Lists(rows, number) <==> exists c :: c in rows && c.number == number
  {
  }

  // ---------------------------------------------------------------- removals

  /** Another request of the media and quality than those removed. */
  predicate Stays(t: Tables, ids: seq<int>, mediaId: int, four: bool, id: int)
  {
    id in t.requests && id !in ids && t.requests[id].mediaId == Some(mediaId) && t.requests[id].is4k == four
  }

  lemma {:induction false} LoadedAre(t: Tables, ids: seq<int>)
    requires ValidTables(t)
    ensures forall id :: id in IdsOf(Loaded(t, ids)) <==> id in ids && id in t.requests
    ensures forall e :: e in Loaded(t, ids) <==> exists id :: id in ids && id in t.requests && e == t.requests[id]
    decreases |ids|
  {
    hide UniqueIds;
    if ids != [] {
      var init, last := ids[..|ids| - 1], ids[|ids| - 1];
      LoadedAre(t, init);
      assert ids == init + [last];
      var all, part := Loaded(t, ids), Loaded(t, init);
      forall id ensures id in IdsOf(all) <==> id in ids && id in t.requests {
        if id in IdsOf(all) {
          var i :| 0 <= i < |all| && all[i].id == id;
          if i < |part| { assert part[i].id == id; }
        }
        if id in ids && id in t.requests {
          if id in init {
            var i :| 0 <= i < |part| && part[i].id == id;
            assert all[i].id == id;
          } else {
            assert all[|all| - 1].id == id;
          }
        }
      }
    }
  }

  /** A removal fails exactly when a removed request has no media row; else exactly these requests go. */
  lemma RemovedRequests(o: Oracle, t: Tables, ids: seq<int>)
    requires Works(o) && Good(t)
    ensures var t' := Next(o, t, Remove(ids));
            if exists id :: id in ids && id in t.requests && !HasMedia(t, t.requests[id]) then t' == t
            else (forall id :: id in t'.requests <==> id in t.requests && id !in ids)
                 && (forall id :: id in t'.requests ==> t'.requests[id] == t.requests[id])
                 && t'.media.Keys == t.media.Keys
  {
    hide Hooks, Loaded, UniqueIds, UniqueSeasons, IdsOf;
    var es := Loaded(t, ids);
    LoadedAre(t, ids);
    InHooks(t, es, IdsOf(es), SetSeason(0, 0, false));
    if id :| id in ids && id in t.requests && !HasMedia(t, t.requests[id]) {
      assert t.requests[id] in es;
      var k :| 0 <= k < |es| && es[k] == t.requests[id];
      assert !HasMedia(t, es[k]);
    } else {
      assert forall e :: e in es ==> HasMedia(t, e);
      NoneFails(t, es);
    }
  }

  /**
   * The media of a removed request: each column stays while a staying request of it is neither DECLINED nor COMPLETED
   * or it is AVAILABLE or PARTIAL; else it is DELETED while a COMPLETED one stays, and UNKNOWN without.
   */
  lemma RemovalColumn(o: Oracle, t: Tables, ids: seq<int>, mediaId: int, four: bool)
    requires Works(o) && Good(t) && mediaId in t.media
    requires forall id :: id in ids && id in t.requests ==> HasMedia(t, t.requests[id])
    ensures var t' := Next(o, t, Remove(ids));
            var c := Column(t.media[mediaId], four);
            var removed := exists id :: id in ids && id in t.requests && t.requests[id].mediaId == Some(mediaId);
            var active := exists id :: Stays(t, ids, mediaId, four, id) && t.requests[id].status != DECLINED
                                       && t.requests[id].status != COMPLETED;
            var completed := exists id :: Stays(t, ids, mediaId, four, id) && t.requests[id].status == COMPLETED;
            mediaId in t'.media
            && Column(t'.media[mediaId], four)
               == if !removed || active || c == M_AVAILABLE || c == M_PARTIAL then c
                  else if completed then M_DELETED else M_UNKNOWN
  {
    hide Hooks, Loaded, UniqueIds, UniqueSeasons, IdsOf, HasMedia;
    var es := Loaded(t, ids);
    LoadedAre(t, ids);
    NoneFails(t, es);
    assert UniqueSeasons(t.media[mediaId]);
    MediaId(t, mediaId);
    RemovalOutcome(t, es, mediaId, four);
    TouchedIs(t, ids, mediaId);
    forall id | Stays(t, ids, mediaId, four, id) ensures Left(t, IdsOf(es), mediaId, four, id) {
    }
    forall id | id in t.requests && Left(t, IdsOf(es), mediaId, four, id) ensures Stays(t, ids, mediaId, four, id) {
    }
  }

  lemma NoneFails(t: Tables, es: seq<Request>)
    requires forall e :: e in es ==> HasMedia(t, e)
    ensures AfterRemoval(t, es).Some?
  {
    hide Hooks, HasMedia, IdsOf;
    InHooks(t, es, IdsOf(es), SetSeason(0, 0, false));
    assert forall k :: 0 <= k < |es| ==> es[k] in es;
  }

  lemma TouchedIs(t: Tables, ids: seq<int>, mediaId: int)
    requires ValidTables(t)
    ensures Touched(Loaded(t, ids), mediaId)
       <==> exists id :: id in ids && id in t.requests && t.requests[id].mediaId == Some(mediaId)
  {
    hide Loaded, IdsOf, UniqueIds;
    var es := Loaded(t, ids);
    LoadedAre(t, ids);
    if id :| id in ids && id in t.requests && t.requests[id].mediaId == Some(mediaId) {
      assert t.requests[id] in es;
      var k :| 0 <= k < |es| && es[k] == t.requests[id];
      assert es[k].mediaId == Some(mediaId);
    }
    if Touched(es, mediaId) {
      var k :| 0 <= k < |es| && es[k].mediaId == Some(mediaId);
      assert es[k] in es;
    }
  }

  /** The season or an episode of it is in the request. */
  predicate HasSeason(r: Request, number: int)
  {
    (exists c :: c in r.seasons && c.number == number) || exists c :: c in r.episodes && c.number == number
  }

  lemma HasSeasonIs(r: Request, number: int)
    ensures ListsAny(r, number) <==> HasSeason(r, number)
  {
    HasRow(r.seasons, number);
    HasRow(r.episodes, number);
  }

  /**
   * A season goes back to UNKNOWN exactly from PENDING or PROCESSING, when a removed request of the media and quality
   * has it, by a season or an episode row, and no staying one that is neither DECLINED nor COMPLETED does.
   */
  lemma RemovalSeasonColumn(o: Oracle, t: Tables, ids: seq<int>, mediaId: int, i: nat, four: bool)
    requires Works(o) && Good(t) && mediaId in t.media && i < |t.media[mediaId].seasons|
    requires forall id :: id in ids && id in t.requests ==> HasMedia(t, t.requests[id])
    ensures var t' := Next(o, t, Remove(ids));
            var s := t.media[mediaId].seasons[i];
            var c := SeasonColumn(s, four);
            var removed := exists id :: id in ids && id in t.requests && t.requests[id].mediaId == Some(mediaId)
                             && t.requests[id].is4k == four && HasSeason(t.requests[id], s.number);
            var active := exists id :: Stays(t, ids, mediaId, four, id) && t.requests[id].status != DECLINED
                            && t.requests[id].status != COMPLETED && HasSeason(t.requests[id], s.number);
            mediaId in t'.media && i < |t'.media[mediaId].seasons|
            && SeasonColumn(t'.media[mediaId].seasons[i], four)
               == if t.media[mediaId].isTv && removed && !active && (c == M_PENDING || c == M_PROCESSING) then M_UNKNOWN
                  else c
  {
    hide Hooks, Loaded, UniqueIds, UniqueSeasons, IdsOf, HasMedia, HasSeason, ListsAny;
    var es, s := Loaded(t, ids), t.media[mediaId].seasons[i];
    LoadedAre(t, ids);
    NoneFails(t, es);
    assert UniqueSeasons(t.media[mediaId]);
    MediaId(t, mediaId);
    RemovalSeasons(t, es, mediaId, i, four);
    forall r: Request ensures ListsAny(r, s.number) <==> HasSeason(r, s.number) { HasSeasonIs(r, s.number); }
    forall id | id in t.requests ensures Stays(t, ids, mediaId, four, id) <==> Left(t, IdsOf(es), mediaId, four, id) {
    }
    assert StillListed(t, IdsOf(es), mediaId, four, s.number) <==>
      exists id :: Stays(t, ids, mediaId, four, id) && t.requests[id].status != DECLINED
        && t.requests[id].status != COMPLETED && HasSeason(t.requests[id], s.number);
    PutBackIs(t, ids, mediaId, i, four);
  }

  lemma PutBackIs(t: Tables, ids: seq<int>, mediaId: int, i: nat, four: bool)
    requires Good(t) && mediaId in t.media && i < |t.media[mediaId].seasons|
    ensures var m, es := t.media[mediaId], Loaded(t, ids);
            PutBack(t, IdsOf(es), m, es, i, four)
            <==> exists id :: id in ids && id in t.requests && t.requests[id].mediaId == Some(mediaId)
                              && t.requests[id].is4k == four && FallsBack(t, IdsOf(es), m, t.requests[id], i)
  {
    hide Loaded, UniqueIds, UniqueSeasons, IdsOf, FallsBack;
    var m, es := t.media[mediaId], Loaded(t, ids);
    LoadedAre(t, ids);
    MediaId(t, mediaId);
    if id :| id in ids && id in t.requests && t.requests[id].mediaId == Some(mediaId)
             && t.requests[id].is4k == four && FallsBack(t, IdsOf(es), m, t.requests[id], i) {
      assert t.requests[id] in es;
      var k :| 0 <= k < |es| && es[k] == t.requests[id];
      assert FallsBack(t, IdsOf(es), m, es[k], i);
    }
    if PutBack(t, IdsOf(es), m, es, i, four) {
      var k :| 0 <= k < |es| && es[k].mediaId == Some(m.id) && es[k].is4k == four
               && FallsBack(t, IdsOf(es), m, es[k], i);
      assert es[k] in es;
    }
  }

  // -------------------------------------------------------------- other steps

  /** What an insert makes of its media row: PENDING in its quality unless that is past UNKNOWN and not DELETED. */
  lemma InsertColumn(t: Tables, r: Request, k: int)
    requires Insertable(t, r)
    ensures var id, t' := r.mediaId.value, WithNew(t, r);
            t'.requests == t.requests[r.id := r] && t'.media.Keys == t.media.Keys + {id}
            && (k in t.media && k != id ==> t'.media[k] == t.media[k])
            && (if id in t.media then
                  var m := t.media[id];
                  var bump := Column(m, r.is4k) == M_UNKNOWN || Column(m, r.is4k) == M_DELETED;
                  Column(t'.media[id], r.is4k) == (if bump then M_PENDING else Column(m, r.is4k))
                  && Column(t'.media[id], !r.is4k) == Column(m, !r.is4k) && t'.media[id].seasons == m.seasons
                  && t'.media[id].isTv == m.isTv
                else
                  Column(t'.media[id], r.is4k) == M_PENDING && Column(t'.media[id], !r.is4k) == M_UNKNOWN
                  && t'.media[id].seasons == [] && t'.media[id].isTv == (r.kind == Tv))
  {
    hide UniqueIds;
  }

  /**
   * Steps that find nothing to do: an action on a request of another status or none, an insert that isn't possible, a
   * background write of a request that is gone; and a removal or a deletion whose transaction fails.
   */
  lemma NothingDone(o: Oracle, t: Tables, s: Step)
    requires match s
             case Insert(row) => !o.db(0) || !Insertable(t, row)
             case Act(id, from, _, _) => id !in t.requests || t.requests[id].status != from
             case Remove(_) => !o.db(0)
             case LateSave(id, _) => id !in t.requests
             case LateChildren(id, _) => id !in t.requests
             case LateFailure(id) => id !in t.requests
             case Forget(_, _) => !o.db(0)
    ensures Next(o, t, s) == t
  {
    hide Save, AfterInsert, Insertable, AfterRemoval;
  }

  /** A background save leaves its request COMPLETED or FAILED, as its copy says, and touches nothing else. */
  lemma LateSaveOutcome(o: Oracle, t: Tables, id: int, copy: Request)
    requires Works(o) && Good(t) && id in t.requests
    ensures var t' := Next(o, t, LateSave(id, copy));
            t'.media == t.media && t'.requests.Keys == t.requests.Keys
            && t'.requests[id].status == (if copy.status == COMPLETED then COMPLETED else FAILED)
            && t'.requests[id].modifiedBy == copy.modifiedBy
            && SameRequest(t'.requests[id], t.requests[id])
            && forall other :: other in t.requests && other != id ==> t'.requests[other] == t.requests[other]
  {
    hide Save, InSync, UniqueIds, UniqueSeasons;
    var e := OldCopy(t.requests[id], copy);
    assert e.id == id;
    ClosingSave(o, Start(t), e, 0);
    ClosingModifier(o, Start(t), e, 0);
    var after := Save(o, Start(t), e, 0);
    InSyncRow(after.e, after.w.tables.requests[id]);
  }

  lemma ClosingModifier(o: Oracle, w: World, e: Request, depth: nat)
    requires e.status == COMPLETED || e.status == FAILED
    ensures Save(o, w, e, depth).e.modifiedBy == e.modifiedBy
  {
    hide Write, UpdateParent, AfterUpdate;
    var w0 := w.(deepest := Max(w.deepest, depth));
    var wrote := Write(o, w0, e, true);
    WriteModifier(o, w0, e);
    SettledHooks(o, wrote.w, wrote.e, depth);
    ClosedParentKeeps(o, wrote.w.(hooks := wrote.w.hooks + 1), wrote.e);
  }

  lemma WriteModifier(o: Oracle, w: World, e: Request)
    ensures Write(o, w, e, true).e.modifiedBy == e.modifiedBy && Write(o, w, e, true).e.status == e.status
  {
    hide SavedRow, ReloadedChildren, RowDiffers;
  }

  /** A background write of child rows brings exactly those of the copy, and touches nothing else. */
  lemma LateChildrenOutcome(o: Oracle, t: Tables, id: int, copy: Request)
    requires Works(o) && Good(t) && id in t.requests && UniqueIds(copy.seasons) && UniqueIds(copy.episodes)
    ensures var t' := Next(o, t, LateChildren(id, copy));
            OnlyRequest(t, t', id) && t'.requests[id].status == t.requests[id].status
            && ChildrenWritten(t.requests[id].seasons, t'.requests[id].seasons, copy.seasons, o.clock(1))
            && ChildrenWritten(t.requests[id].episodes, t'.requests[id].episodes, copy.episodes, o.clock(1))
  {
    hide ChildrenWritten, SavedChildren, ReloadedChildren, UniqueIds, UniqueSeasons;
    var stored, now := t.requests[id], o.clock(1);
    assert stored.id == id;
    SavedChildrenWritten(stored.seasons, copy.seasons, now);
    SavedChildrenWritten(stored.episodes, copy.episodes, now);
  }

  /** A background failure sets one row FAILED; a deleted media row takes its requests along, and nothing else goes. */
  lemma LateFailureOutcome(o: Oracle, t: Tables, id: int, mediaId: int, k: int)
    requires Works(o) && Good(t) && id in t.requests
    ensures var t' := Next(o, t, LateFailure(id));
            OnlyRequest(t, t', id) && t'.requests[id].status == FAILED && SameRequest(t'.requests[id], t.requests[id])
            && t'.requests[id].seasons == t.requests[id].seasons && t'.requests[id].episodes == t.requests[id].episodes
    ensures var t' := Next(o, t, Forget(mediaId, id));
            (k in t'.media <==> k in t.media && k != mediaId) && (k in t'.media ==> t'.media[k] == t.media[k])
            && (k in t'.requests <==> k in t.requests && k != id && t.requests[k].mediaId != Some(mediaId))
            && (k in t'.requests ==> t'.requests[k] == t.requests[k])
  {
    hide UniqueIds, UniqueSeasons;
    assert t.requests[id].id == id;
  }
}
