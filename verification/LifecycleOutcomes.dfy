/** What one approval or decline leaves, and exactly when the code falls short of what its media status says. */
module LifecycleOutcomes {
  import opened Text
  import opened LifecycleRows
  import opened Lifecycle
  import opened LifecycleSaves
  import opened Removal
  import opened LifecycleRuns

  /** A decline of a PENDING request that has its media. */
  predicate CanDecline(t: Tables, id: int)
  {
    id in t.requests && t.requests[id].status == PENDING && HasMedia(t, t.requests[id])
  }

  /** The decline's effect: the stored request is DECLINED, other requests stay, and the media row is the parent's. */
  lemma DeclineShape(o: Oracle, t: Tables, id: int, viewer: int) returns (mid: Tables, e: Request)
    requires Works(o) && Good(t) && CanDecline(t, id)
    ensures var t', r := Next(o, t, Act(id, PENDING, DECLINED, viewer)), t.requests[id];
            id in t'.requests && t'.requests[id].status == DECLINED && t'.requests.Keys == t.requests.Keys
            && (forall k :: k in t.requests && k != id ==> t'.requests[k] == t.requests[k])
            && SameRequest(e, r) && e.status == DECLINED && SameNumbers(e.seasons, r.seasons)
            && OnlyRequest(t, mid, id)
            && t'.media == t.media[r.mediaId.value := ParentMedia(mid, t.media[r.mediaId.value], e)]
  {
    hide Save, InSync, ParentMedia, UniqueIds, UniqueSeasons;
    var r := t.requests[id];
    var wanted := r.(status := DECLINED, modifiedBy := Some(viewer));
    var e';
    mid, e' := SaveRuns(o, Start(t), wanted, 0);
    OwnRow(t, mid, wanted, e');
    e := e';
    var after := Save(o, Start(t), wanted, 0);
    InSyncRow(after.e, after.w.tables.requests[id]);
  }

  lemma SameLists(a: seq<Child>, b: seq<Child>, number: int)
    requires SameNumbers(a, b)
    ensures Lists(a, number) == Lists(b, number)
  {
  }

  lemma SameOthers(t: Tables, t': Tables, e: Request, r: Request, number: int)
    requires OnlyRequest(t, t', r.id) && SameRequest(e, r)
    ensures OtherPending(t', e) == OtherPending(t, r) && OtherLists(t', e, number) == OtherLists(t, r, number)
  {
    hide Lists;
  }

  /**
   * A decline of a series' request, with a working database: the media leaves PENDING for UNKNOWN in the quality
   * exactly when no other request of it is PENDING, and a season does exactly when the request lists it, it is the
   * first of its number, and no other active request of the quality lists it as a season row. Nothing else of the
   * media and its seasons changes, and no other media row or request.
   */
  lemma DeclineOutcome(o: Oracle, t: Tables, id: int, viewer: int)
    requires Works(o) && Good(t) && CanDecline(t, id) && t.media[t.requests[id].mediaId.value].isTv
    ensures var r, t' := t.requests[id], Next(o, t, Act(id, PENDING, DECLINED, viewer));
            var k := r.mediaId.value;
            var m := t.media[k];
            k in t'.media && |t'.media[k].seasons| == |m.seasons|
            && StatusOf(t'.media[k], r.is4k)
               == (if StatusOf(m, r.is4k) == M_PENDING && !OtherPending(t, r) then M_UNKNOWN else StatusOf(m, r.is4k))
            && StatusOf(t'.media[k], !r.is4k) == StatusOf(m, !r.is4k)
            && t'.media[k] == m.(status := t'.media[k].status, status4k := t'.media[k].status4k,
                                 seasons := t'.media[k].seasons)
            && forall i :: 0 <= i < |m.seasons| ==>
                 t'.media[k].seasons[i]
                 == if Resets(t, m, r, r.seasons, i) then WithSeasonStatus(m.seasons[i], r.is4k, M_UNKNOWN)
                    else m.seasons[i]
    ensures var r, t' := t.requests[id], Next(o, t, Act(id, PENDING, DECLINED, viewer));
            t'.media == t.media[r.mediaId.value := t'.media[r.mediaId.value]]
            && t'.requests.Keys == t.requests.Keys && t'.requests[id].status == DECLINED
            && forall other :: other in t.requests && other != id ==> t'.requests[other] == t.requests[other]
  {
    hide Next, OtherPending, OtherLists, Good, Lists, FirstOfNumber, SameNumbers;
    var mid, e := DeclineShape(o, t, id, viewer);
    var r := t.requests[id];
    var m := t.media[r.mediaId.value];
    assert r.id == id by { OwnId(t, id); }
    SameOthers(t, mid, e, r, 0);
    forall i | 0 <= i < |m.seasons| ensures Resets(mid, m, e, e.seasons, i) == Resets(t, m, r, r.seasons, i) {
      SameOthers(t, mid, e, r, m.seasons[i].number);
      SameLists(e.seasons, r.seasons, m.seasons[i].number);
    }
  }

  lemma OwnId(t: Tables, id: int)
    requires Good(t) && id in t.requests
    ensures t.requests[id].id == id
  {
  }

  /** Another request of the media in this quality is APPROVED. */
  predicate OtherApproved(t: Tables, e: Request)
  {
    exists id :: id in t.requests && id != e.id && t.requests[id].mediaId == e.mediaId && t.requests[id].is4k == e.is4k
                 && t.requests[id].status == APPROVED
  }

  /** Every such request has the media underway. */
  predicate OthersUnderway(t: Tables, e: Request)
  {
    OtherApproved(t, e) ==> HasMedia(t, e) && Underway(StatusOf(t.media[e.mediaId.value], e.is4k))
  }

  /**
   * A decline of a movie's request resets the movie in the quality whatever other requests ask: the other APPROVED
   * requests of it in that quality have it underway afterwards exactly when there is none.
   */
  lemma MovieDecline(o: Oracle, t: Tables, id: int, viewer: int)
    requires Works(o) && Good(t) && CanDecline(t, id) && !t.media[t.requests[id].mediaId.value].isTv
    ensures var r, t' := t.requests[id], Next(o, t, Act(id, PENDING, DECLINED, viewer));
            var k := r.mediaId.value;
            k in t'.media && StatusOf(t'.media[k], !r.is4k) == StatusOf(t.media[k], !r.is4k)
            && StatusOf(t'.media[k], r.is4k)
               == (if StatusOf(t.media[k], r.is4k) == M_DELETED then M_DELETED else M_UNKNOWN)
            && (forall other :: other in t.requests && other != id ==>
                  other in t'.requests && t'.requests[other] == t.requests[other])
            && (OthersUnderway(t', r) <==> !OtherApproved(t, r))
  {
    hide Next, OtherPending, DeclinedSeasons, Good, SameNumbers;
    var mid, e := DeclineShape(o, t, id, viewer);
    OwnId(t, id);
  }

  /** A movie asked for three times, as its oldest request was declined before. */
  function MovieExample(): Tables
  {
    var r := Request(1, Movie, DECLINED, false, Some(7), None, false, [], [], 0);
    Tables(map[1 := r, 2 := r.(id := 2, status := APPROVED), 3 := r.(id := 3, status := PENDING)],
           map[7 := Media(7, false, M_PROCESSING, M_UNKNOWN, [])])
  }

  /** Such a decline: it takes the movie from an APPROVED request. */
  lemma MovieDeclineHappens(o: Oracle, viewer: int)
    requires Works(o)
    ensures var t := MovieExample();
            var t' := Next(o, t, Act(3, PENDING, DECLINED, viewer));
            Good(t) && 2 in t'.requests && t'.requests[2].status == APPROVED && t'.requests[2].mediaId == Some(7)
            && Underway(StatusOf(t.media[7], false)) && 7 in t'.media && StatusOf(t'.media[7], false) == M_UNKNOWN
            && OthersUnderway(t, t.requests[3]) && !OthersUnderway(t', t.requests[3])
  {
    hide Next;
    var t := MovieExample();
    assert Good(t);
    MovieDecline(o, t, 3, viewer);
    assert t.requests[2].status == APPROVED;
  }

  /** The media row once an approval reached it. */
  function ApprovedMedia(m: Media, four: bool): Media
  {
    if Underway(StatusOf(m, four)) then m else WithStatus(m, four, M_PROCESSING)
  }

  /**
   * An approval, or a retry, leaves the request APPROVED with its media underway, or closed with all media as
   * before; without a server it is APPROVED.
   */
  lemma ApproveOutcome(o: Oracle, t: Tables, id: int, from: int, viewer: int)
    requires Works(o) && Good(t) && id in t.requests && HasMedia(t, t.requests[id])
        && t.requests[id].status == from != APPROVED
    ensures var r, t' := t.requests[id], Next(o, t, Act(id, from, APPROVED, viewer));
            var k := r.mediaId.value;
            t'.requests.Keys == t.requests.Keys && SameRequest(t'.requests[id], r)
            && (forall other :: other in t.requests && other != id ==> t'.requests[other] == t.requests[other])
            && (if t'.requests[id].status == APPROVED then t'.media == t.media[k := ApprovedMedia(t.media[k], r.is4k)]
                else (t'.requests[id].status == FAILED || t'.requests[id].status == COMPLETED) && t'.media == t.media)
            && (Unconfigured(o) ==> t'.requests[id].status == APPROVED)
  {
    hide Save, InSync, UniqueIds, UniqueSeasons, ParentMedia;
    var r := t.requests[id];
    var wanted := r.(status := APPROVED, modifiedBy := Some(viewer));
    var mid, e := SaveRuns(o, Start(t), wanted, 0);
    OwnRow(t, mid, wanted, e);
    var after := Save(o, Start(t), wanted, 0);
    InSyncRow(after.e, after.w.tables.requests[id]);
    var m := t.media[r.mediaId.value];
    ParentOfUndeclined(mid, m, e);
    assert t.media[r.mediaId.value := m] == t.media;
  }

  lemma ParentOfUndeclined(t: Tables, m: Media, e: Request)
    requires e.status != DECLINED
    ensures ParentMedia(t, m, e) == if e.status == APPROVED then ApprovedMedia(m, e.is4k) else m
  {
    hide OtherPending, DeclinedSeasons;
  }

  // ------------------------------------------------------------ what it needs

  /** The database calls of an approved request's parent update, up to its transaction. */
  predicate ParentReaches(o: Oracle, w: World, m: Media)
  {
    o.db(w.asked) && o.db(w.asked + 1) && (m.isTv ==> o.db(w.asked + 2))
  }

  /**
   * The hooks swallow a failed parent update: an APPROVED request's media is underway after it exactly when it was,
   * or no call failed.
   */
  lemma UnderwayNeedsParent(o: Oracle, w: World, e: Request)
    requires e.status == APPROVED && HasMedia(w.tables, e)
    ensures var m := w.tables.media[e.mediaId.value];
            var after := UpdateParent(o, w, e).w.tables;
            e.mediaId.value in after.media
            && (Underway(StatusOf(after.media[e.mediaId.value], e.is4k))
                <==> Underway(StatusOf(m, e.is4k)) || ParentReaches(o, w, m))
  {
    hide SavedRow, WithChildStatus, ReloadedChildren;
  }

  /** Such a loss: the approval's write succeeds, no Sonarr server is configured, and the parent's update fails. */
  lemma LostParentUpdate(o: Oracle, t: Tables, id: int, viewer: int)
    requires CanDecline(t, id) && t.requests[id].kind == Tv && t.media[t.requests[id].mediaId.value].isTv
    requires o.db(0) && o.db(1) && o.db(2) && !o.ext(3) && o.db(4) && !o.db(5) && t.requests[id].id == id
    ensures var t' := Next(o, t, Act(id, PENDING, APPROVED, viewer));
            id in t'.requests && t'.requests[id].status == APPROVED && t'.requests[id].mediaId == t.requests[id].mediaId
            && t'.requests[id].is4k == t.requests[id].is4k && t'.media == t.media
  {
    hide Write, AfterUpdate;
    var e := t.requests[id].(status := APPROVED, modifiedBy := Some(viewer));
    assert Start(t).(deepest := Max(Start(t).deepest, 0)) == Start(t);
    WroteApproval(o, t, e);
    LostHooks(o, Write(o, Start(t), e, true).w, Write(o, Start(t), e, true).e);
  }

  /** A series with one PENDING request. */
  function PlanExample(): Tables
  {
    Tables(map[1 := Request(1, Tv, PENDING, false, Some(7), None, false, [], [], 0)],
           map[7 := Media(7, true, M_PENDING, M_UNKNOWN, [])])
  }

  /** In such a run the request is APPROVED and its media isn't underway. */
  lemma LostParentUpdateHappens(viewer: int)
    ensures var o, t := Oracle(n => n != 5, n => false, n => 0), PlanExample();
            Good(t) && Steady(t, None) && !Steady(Next(o, t, Act(1, PENDING, APPROVED, viewer)), None)
  {
    hide Next;
    var o, t := Oracle(n => n != 5, n => false, n => 0), PlanExample();
    assert Good(t);
    LostParentUpdate(o, t, 1, viewer);
    var t' := Next(o, t, Act(1, PENDING, APPROVED, viewer));
    assert !Held(t', t'.requests[1]);
  }

  lemma WroteApproval(o: Oracle, t: Tables, e: Request)
    requires o.db(0) && o.db(1) && o.db(2) && e.id in t.requests && RowDiffers(t.requests[e.id], e)
    ensures var wrote := Write(o, Start(t), e, true);
            wrote.ok && wrote.changed && wrote.w.asked == 3 && OnlyRequest(t, wrote.w.tables, e.id)
            && wrote.w.tables.requests[e.id].status == e.status
            && SameRequest(wrote.w.tables.requests[e.id], t.requests[e.id]) && SameRequest(wrote.e, e)
               && wrote.e.status == e.status
  {
    hide SavedChildren, ReloadedChildren;
  }

  lemma LostHooks(o: Oracle, w: World, e: Request)
    requires e.status == APPROVED && e.kind == Tv && HasMedia(w.tables, e) && w.tables.media[e.mediaId.value].isTv
    requires w.asked == 3 && !o.ext(3) && o.db(4) && !o.db(5)
    ensures AfterUpdate(o, w, e, 0).w.tables == w.tables
  {
    hide UpdateParent, SonarrInner, MediaAt;
    var w1 := w.(hooks := w.hooks + 1);
    assert SendToRadarr(o, w1, e, 0) == Outcome(w1, e, true);
    SkippedSonarr(o, w1, e);
    LostUpdate(o, Asked(w1), e);
  }

  lemma SkippedSonarr(o: Oracle, w: World, e: Request)
    requires e.status == APPROVED && e.kind == Tv && !o.ext(w.asked)
    ensures SendToSonarr(o, w, e, 0) == Outcome(Asked(w), e, true)
  {
    hide Save, WithChildStatus;
  }

  lemma LostUpdate(o: Oracle, w: World, e: Request)
    requires e.status == APPROVED && HasMedia(w.tables, e) && w.tables.media[e.mediaId.value].isTv && o.db(w.asked)
        && !o.db(w.asked + 1)
    ensures UpdateParent(o, w, e).w.tables == w.tables
  {
    hide CommitParent, ParentMedia, WithChildStatus;
  }

  /** A series whose season 1 one request lists as a season row and another, active, by an episode row. */
  function EpisodeExample(): Tables
  {
    var row := Child(10, 1, PENDING, None, 0);
    Tables(map[1 := Request(1, Tv, PENDING, false, Some(7), None, false, [row], [], 0),
               2 := Request(2, Tv, APPROVED, false, Some(7), None, true, [], [row.(id := 11)], 0)],
           map[7 := Media(7, true, M_PROCESSING, M_UNKNOWN, [MediaSeason(70, 1, M_PENDING, M_UNKNOWN)])])
  }

  /** A decline overlooks episode rows: it resets a season that an active request still lists by one. */
  lemma EpisodeRowsAreOverlooked(o: Oracle, viewer: int)
    requires Works(o)
    ensures var t := EpisodeExample();
            var t' := Next(o, t, Act(1, PENDING, DECLINED, viewer));
            Good(t) && Steady(t, None) && t.requests[2].is4k == t.requests[1].is4k && Active(t.requests[2])
            && ListsAny(t.requests[2], 1) && SeasonStatus(t.media[7].seasons[0], false) == M_PENDING
            && 7 in t'.media && |t'.media[7].seasons| == 1 && SeasonStatus(t'.media[7].seasons[0], false) == M_UNKNOWN
  {
    hide Next;
    var t := EpisodeExample();
    var m := t.media[7];
    assert Good(t);
    assert t.requests[2].episodes[0].number == 1;
    DeclineOutcome(o, t, 1, viewer);
    assert t.requests[1].seasons[0].number == 1;
    assert Lists(t.requests[1].seasons, m.seasons[0].number);
    assert Resets(t, m, t.requests[1], t.requests[1].seasons, 0);
  }

  /** Another active request lists the season by a season or an episode row. */
  predicate OtherListsAny(t: Tables, e: Request, number: int)
  {
    exists id :: id in t.requests && id != e.id && t.requests[id].mediaId == e.mediaId && t.requests[id].is4k == e.is4k
                 && Active(t.requests[id]) && ListsAny(t.requests[id], number)
  }

  /**
   * A season that another active request lists by any row keeps its status in a decline exactly unless it was
   * PENDING, first of its number and listed by the declined request, and the others list it by episode rows only.
   */
  lemma ListedByAnyRow(o: Oracle, t: Tables, id: int, viewer: int, i: nat)
    requires Works(o) && Good(t) && CanDecline(t, id) && t.media[t.requests[id].mediaId.value].isTv
    requires i < |t.media[t.requests[id].mediaId.value].seasons|
    requires OtherListsAny(t, t.requests[id], t.media[t.requests[id].mediaId.value].seasons[i].number)
    ensures var r, t' := t.requests[id], Next(o, t, Act(id, PENDING, DECLINED, viewer));
            var k := r.mediaId.value;
            var s := t.media[k].seasons[i];
            k in t'.media && |t'.media[k].seasons| == |t.media[k].seasons|
            && (SeasonStatus(t'.media[k].seasons[i], r.is4k) == SeasonStatus(s, r.is4k)
                <==> !(SeasonStatus(s, r.is4k) == M_PENDING && FirstOfNumber(t.media[k].seasons, i)
                       && Lists(r.seasons, s.number) && !OtherLists(t, r, s.number)))
  {
    hide Next, Good, OtherLists, OtherListsAny, Lists, FirstOfNumber;
    DeclineOutcome(o, t, id, viewer);
  }
}
