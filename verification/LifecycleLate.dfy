/** Media rows read before another step commits: `update_parent_status` and an insert's plan, split at that read. */
module LifecycleLate {
  import opened Text
  import opened LifecycleRows
  import opened Lifecycle
  import opened LifecycleSaves
  import opened Removal
  import opened LifecycleRuns
  import opened LifecycleOutcomes

  /**
   * The status `update_parent_status` sets when its media row was `read` before and its transaction meets the
   * tables `t`: the columns come from the row read, the counts from the tables.
   */
  function LateStatus(t: Tables, read: Media, e: Request): Option<int>
  {
    var current := StatusOf(read, e.is4k);
    if e.status == APPROVED && !Underway(current) then Some(M_PROCESSING)
    else if e.status == DECLINED && !read.isTv && current != M_DELETED then Some(M_UNKNOWN)
    else if e.status == DECLINED && read.isTv && current == M_PENDING && !OtherPending(t, e) then Some(M_UNKNOWN)
    else None
  }

  function WithLateStatus(t: Tables, id: int, read: Media, e: Request): Tables
    requires id in t.media
  {
    var m := t.media[id];
    t.(media := t.media[id := WithStatus(m, e.is4k, Coalesce(LateStatus(t, read, e), StatusOf(m, e.is4k)))])
  }

  /** Without a step in between, that is the parent's update. */
  lemma LateStatusIsParents(t: Tables, m: Media, e: Request)
    ensures StatusOf(ParentMedia(t, m, e), e.is4k) == Coalesce(LateStatus(t, m, e), StatusOf(m, e.is4k))
  {
    hide OtherPending, DeclinedSeasons;
  }

  /**
   * With another save between the read and the transaction of a series' decline, the other APPROVED requests keep
   * their media underway exactly unless the row read was PENDING, no other request is PENDING, and there is one.
   */
  lemma StaleDecline(t: Tables, read: Media, e: Request)
    requires HasMedia(t, e) && e.status == DECLINED && read.isTv && t.media[e.mediaId.value].isTv
        && Steady(t, Some(e.id))
    ensures Steady(WithLateStatus(t, e.mediaId.value, read, e), Some(e.id))
       <==> !(StatusOf(read, e.is4k) == M_PENDING && !OtherPending(t, e) && OtherApproved(t, e))
  {
    hide OtherPending;
    var t' := WithLateStatus(t, e.mediaId.value, read, e);
    if StatusOf(read, e.is4k) == M_PENDING && !OtherPending(t, e) {
      forall id | id in t.requests && id != e.id
        ensures Held(t', t'.requests[id])
           <==> !(t.requests[id].mediaId == e.mediaId && t.requests[id].is4k == e.is4k
                  && t.requests[id].status == APPROVED)
      {
        assert Held(t, t.requests[id]);
      }
    } else {
      assert t'.media[e.mediaId.value] == t.media[e.mediaId.value];
      assert forall id :: id in t.requests ==> (Held(t', t'.requests[id]) <==> Held(t, t.requests[id]));
    }
  }

  /** An approval's own media is underway after such a read exactly unless the row read was and no longer is. */
  lemma StaleApproval(t: Tables, read: Media, e: Request)
    requires HasMedia(t, e) && e.status == APPROVED
    ensures Underway(StatusOf(WithLateStatus(t, e.mediaId.value, read, e).media[e.mediaId.value], e.is4k))
       <==> !Underway(StatusOf(read, e.is4k)) || Underway(StatusOf(t.media[e.mediaId.value], e.is4k))
  {
  }

  /** A series while the decline of its request 1 has read the media row. */
  function SeriesExample(): Tables
  {
    var r := Request(1, Tv, DECLINED, false, Some(7), None, false, [], [], 0);
    Tables(map[1 := r, 2 := r.(id := 2, status := PENDING)], map[7 := Media(7, true, M_PENDING, M_UNKNOWN, [])])
  }

  /** Such a decline: it read PENDING, request 2 is approved, and its transaction puts the media back to UNKNOWN. */
  lemma StaleDeclineHappens(o: Oracle, viewer: int)
    requires Works(o) && Unconfigured(o)
    ensures var t := SeriesExample();
            var t1 := Next(o, t, Act(2, PENDING, APPROVED, viewer));
            Good(t) && Steady(t, None) && Steady(t1, None) && 7 in t1.media
            && !Steady(WithLateStatus(t1, 7, t.media[7], t.requests[1]), Some(1))
  {
    hide Next;
    var t := SeriesExample();
    assert Good(t);
    var t1 := Next(o, t, Act(2, PENDING, APPROVED, viewer));
    StepSteady(o, t, Act(2, PENDING, APPROVED, viewer));
    ApproveOutcome(o, t, 2, PENDING, viewer);
    assert t1.requests[1] == t.requests[1] && t1.requests[2].status == APPROVED;
    StaleDecline(t1, t.media[7], t.requests[1]);
  }

  /** Such an approval: the retry of a movie's request read PROCESSING, and request 3 is declined meanwhile. */
  lemma StaleApprovalHappens(o: Oracle, viewer: int)
    requires Works(o)
    ensures var t := MovieExample();
            var t1 := Next(o, t, Act(3, PENDING, DECLINED, viewer));
            Good(t) && HasMedia(t1, t.requests[2]) && t1.requests.Keys == t.requests.Keys
              && t1.requests[2] == t.requests[2]
            && Underway(StatusOf(t.media[7], false))
            && !Underway(StatusOf(WithLateStatus(t1, 7, t.media[7], t.requests[2]).media[7], false))
  {
    hide Next;
    var t := MovieExample();
    MovieDeclineHappens(o, viewer);
    var mid, e := DeclineShape(o, t, 3, viewer);
    MovieDecline(o, t, 3, viewer);
    StaleApproval(Next(o, t, Act(3, PENDING, DECLINED, viewer)), t.media[7], t.requests[2]);
  }

  // -------------------------------------------------------------- season rows

  /** A season after a decline that read the media row before: looked up there, counted in the tables. */
  function LateSeason(t: Tables, read: Media, e: Request, s: MediaSeason): MediaSeason
  {
    if exists i :: 0 <= i < |read.seasons| && read.seasons[i].id == s.id && Resets(t, read, e, e.seasons, i)
    then WithSeasonStatus(s, e.is4k, M_UNKNOWN) else s
  }

  /** Without a step in between, that is the decline's season. */
  lemma LateSeasonIsDeclined(t: Tables, m: Media, e: Request, i: nat)
    requires i < |m.seasons| && UniqueSeasons(m)
    ensures LateSeason(t, m, e, m.seasons[i]) == DeclinedSeason(t, m, e, e.seasons, i)
  {
    hide Resets;
    assert forall j :: 0 <= j < |m.seasons| && m.seasons[j].id == m.seasons[i].id ==> j == i;
  }

  /**
   * After such a read a season, found there as the `i`-th, is reset exactly when the request lists it, the row read
   * had it PENDING and first of its number, and no other active request lists it by a season row once the
   * transaction runs; a season the row read did not have is not.
   */
  lemma StaleSeason(t: Tables, read: Media, e: Request, s: MediaSeason)
    requires UniqueSeasons(read)
    ensures forall i :: 0 <= i < |read.seasons| && read.seasons[i].id == s.id ==>
              var found := read.seasons[i];
              LateSeason(t, read, e, s)
              == if Lists(e.seasons, found.number) && SeasonStatus(found, e.is4k) == M_PENDING
                    && FirstOfNumber(read.seasons, i) && !OtherLists(t, e, found.number)
                 then WithSeasonStatus(s, e.is4k, M_UNKNOWN) else s
    ensures (forall i :: 0 <= i < |read.seasons| ==> read.seasons[i].id != s.id) ==> LateSeason(t, read, e, s) == s
  {
    hide OtherLists, Lists, FirstOfNumber;
    forall i | 0 <= i < |read.seasons| && read.seasons[i].id == s.id
      ensures (exists j :: 0 <= j < |read.seasons| && read.seasons[j].id == s.id && Resets(t, read, e, e.seasons, j))
         <==> Resets(t, read, e, e.seasons, i)
    {
      assert forall j :: 0 <= j < |read.seasons| && read.seasons[j].id == s.id ==> j == i;
    }
  }

  // ---------------------------------------------------------- an early plan

  predicate Bumps(m: Media, four: bool) { StatusOf(m, four) == M_UNKNOWN || StatusOf(m, four) == M_DELETED }

  /**
   * The tables after an insert's media write, when its plan was made from a row `read` before: it sets both columns.
   */
  function LatePlanned(t: Tables, k: int, read: Media, four: bool): Tables
    requires k in t.media
  {
    var plan := Bumped(read, four);
    if (plan.status, plan.status4k) == (read.status, read.status4k) then t
    else t.(media := t.media[k := t.media[k].(status := plan.status, status4k := plan.status4k)])
  }

  /** Without a step in between, that is the insert's media row. */
  lemma LatePlanIsInserted(t: Tables, k: int, r: Request)
    requires k in t.media && r.mediaId == Some(k)
    ensures LatePlanned(t, k, t.media[k], r.is4k).media == WithNew(t, r).media
  {
    assert t.media[k := t.media[k]] == t.media;
  }

  predicate ApprovedIn(t: Tables, k: int, four: bool)
  {
    exists id :: id in t.requests && t.requests[id].mediaId == Some(k) && t.requests[id].is4k == four
                 && t.requests[id].status == APPROVED
  }

  /**
   * With another step between an insert's plan and its write, the series' APPROVED requests keep it underway exactly
   * unless the plan bumps its quality and one of them is of that quality, or is of the other one, which the row read
   * did not have underway.
   */
  lemma StaleInsert(t: Tables, k: int, read: Media, four: bool)
    requires k in t.media && t.media[k].isTv && Steady(t, None)
    ensures Steady(LatePlanned(t, k, read, four), None)
       <==> !(Bumps(read, four)
              && (ApprovedIn(t, k, four) || (ApprovedIn(t, k, !four) && !Underway(StatusOf(read, !four)))))
  {
    var t' := LatePlanned(t, k, read, four);
    if Bumps(read, four) {
      forall id | id in t.requests
        ensures Held(t', t'.requests[id])
           <==> !(t.requests[id].mediaId == Some(k) && t.requests[id].status == APPROVED
                  && (t.requests[id].is4k == four || !Underway(StatusOf(read, !four))))
      {
        assert Held(t, t.requests[id]);
      }
    }
  }

  /** Such an insert: a 4K request is planned, request 1 is approved, and the write brings PENDING back. */
  lemma StaleInsertHappens(o: Oracle, viewer: int)
    requires Works(o) && Unconfigured(o)
    ensures var t := PlanExample();
            var t1 := Next(o, t, Act(1, PENDING, APPROVED, viewer));
            Good(t) && Steady(t, None) && Steady(t1, None) && 7 in t1.media
            && !Steady(LatePlanned(t1, 7, t.media[7], true), None)
  {
    hide Next;
    var t := PlanExample();
    assert Good(t);
    var t1 := Next(o, t, Act(1, PENDING, APPROVED, viewer));
    StepSteady(o, t, Act(1, PENDING, APPROVED, viewer));
    ApproveOutcome(o, t, 1, PENDING, viewer);
    assert t1.requests[1].status == APPROVED;
    assert ApprovedIn(t1, 7, false);
    StaleInsert(t1, 7, t.media[7], true);
  }

  // -------------------------------------------------------- an early removal

  /** The requests `gone` deleted, and the media statement computed for them before. */
  function LateRemoved(t: Tables, gone: set<int>, s: Statement): Tables
    requires s.SetMedia? && s.mediaId in t.media
  {
    Tables(t.requests - gone, t.media[s.mediaId := OnMedia(t.media[s.mediaId], s)])
  }

  function Sets(s: Statement, four: bool): Option<int>
    requires s.SetMedia?
  {
    if four then s.status4k else s.status
  }

  /** What a fallback sets is never underway. */
  lemma FallbackIsNotUnderway(t: Tables, gone: set<int>, m: Media, four: bool)
    ensures var v := Sets(MediaStatement(t, gone, m), four); v.Some? ==> !Underway(v.value)
  {
    hide HasActive, HadCompleted;
  }

  /**
   * With another step between a removal's statements and its transaction, the series' APPROVED requests that stay
   * keep it underway exactly unless the statements set the status of a quality that one of them is of.
   */
  lemma StaleRemoval(t: Tables, read: Tables, m: Media, gone: set<int>)
    requires m.id in t.media && t.media[m.id].id == m.id && t.media[m.id].isTv && Steady(t, None)
    ensures var s := MediaStatement(read, gone, m);
            var left := t.(requests := t.requests - gone);
            Steady(LateRemoved(t, gone, s), None)
            <==> !(exists four :: Sets(s, four).Some? && ApprovedIn(left, m.id, four))
  {
    hide FallenStatus;
    var s := MediaStatement(read, gone, m);
    var left, t' := t.(requests := t.requests - gone), LateRemoved(t, gone, s);
    FallbackIsNotUnderway(read, gone, m, false);
    FallbackIsNotUnderway(read, gone, m, true);
    forall id | id in left.requests
      ensures Held(t', t'.requests[id])
         <==> !(left.requests[id].mediaId == Some(m.id) && left.requests[id].status == APPROVED
                && Sets(s, left.requests[id].is4k).Some?)
    {
      assert Held(t, t.requests[id]);
      StatusAfterLast(t.media[m.id], s, left.requests[id].is4k);
    }
    if four :| Sets(s, four).Some? && ApprovedIn(left, m.id, four) {
      var id :| id in left.requests && left.requests[id].mediaId == Some(m.id) && left.requests[id].is4k == four
                && left.requests[id].status == APPROVED;
      assert !Held(t', t'.requests[id]);
    }
  }

  /** An auto-approved insert without a server: the request is APPROVED and its media underway. */
  lemma InsertOutcome(o: Oracle, t: Tables, r: Request)
    requires Works(o) && Unconfigured(o) && Good(t) && Insertable(t, r) && r.status == APPROVED
    ensures var t' := Next(o, t, Insert(r));
            var k := r.mediaId.value;
            t'.requests.Keys == t.requests.Keys + {r.id} && t'.requests[r.id].status == APPROVED
            && SameRequest(t'.requests[r.id], r)
            && (forall id :: id in t.requests ==> t'.requests[id] == t.requests[id])
            && t'.media == t.media[k := ApprovedMedia(InsertedMedia(t, k, r), r.is4k)]
  {
    hide AfterInsert, InSync, UniqueIds, UniqueSeasons, ParentMedia;
    NewRow(t, r);
    var t0 := WithNew(t, r);
    var mid, e := InsertRuns(o, Begun(t0), r);
    var after := AfterInsert(o, Begun(t0), r);
    OwnRow(t0, mid, r, e);
    InSyncRow(after.e, after.w.tables.requests[r.id]);
    ParentOfUndeclined(mid, t0.media[r.mediaId.value], e);
  }

  /** Such a removal: it finds request 1 alone, request 2 is inserted and approved, and the media goes to UNKNOWN. */
  lemma StaleRemovalHappens(o: Oracle)
    requires Works(o) && Unconfigured(o)
    ensures var t := PlanExample();
            var r := t.requests[1].(id := 2, status := APPROVED);
            var t1 := Next(o, t, Insert(r));
            Good(t) && Steady(t, None) && Insertable(t, r) && Steady(t1, None) && 7 in t1.media
            && !Steady(LateRemoved(t1, {1}, MediaStatement(t, {1}, t.media[7])), None)
  {
    hide Next;
    var t := PlanExample();
    var r := t.requests[1].(id := 2, status := APPROVED);
    assert Good(t) && Insertable(t, r);
    var t1 := Next(o, t, Insert(r));
    StepSteady(o, t, Insert(r));
    InsertOutcome(o, t, r);
    var s := MediaStatement(t, {1}, t.media[7]);
    assert !HasActive(t, {1}, 7, false);
    assert Sets(s, false) == Some(M_UNKNOWN);
    assert 2 in t1.requests - {1};
    StaleRemoval(t1, t, t.media[7], {1});
  }

  /** A removal whose statements were computed from the tables `read` before its transaction meets `t`. */
  function LateRemoval(read: Tables, t: Tables, es: seq<Request>): (r: Option<Tables>)
    ensures read == t ==> r == AfterRemoval(t, es)
  {
    var hooks := Hooks(read, es, IdsOf(es));
    if hooks.None? then None else Some(Tables(t.requests - IdsOf(es), MediaAfter(t, hooks.value)))
  }

  /** In the tables read, the removal puts back the season of this id. */
  predicate LatePutBack(read: Tables, es: seq<Request>, mediaId: int, seasonId: int, four: bool)
  {
    mediaId in read.media
    && exists i :: 0 <= i < |read.media[mediaId].seasons| && read.media[mediaId].seasons[i].id == seasonId
                   && PutBack(read, IdsOf(es), read.media[mediaId], es, i, four)
  }

  /** A season's statement of a hook names a season of the media row read. */
  lemma NamesASeason(read: Tables, gone: set<int>, e: Request, mediaId: int, seasonId: int, four: bool)
    requires ValidMedia(read) && Removal.Sets(read, gone, e, SetSeason(mediaId, seasonId, four))
    ensures mediaId in read.media
         && exists i :: 0 <= i < |read.media[mediaId].seasons| && read.media[mediaId].seasons[i].id == seasonId
  {
    hide FallsBack, Statements, FallenStatus;
    MediaId(read, e.mediaId.value);
    InStatements(read, gone + {e.id}, read.media[e.mediaId.value], e, SetSeason(mediaId, seasonId, four));
  }

  /** The hooks' statements name a season exactly when it is put back in the tables read. */
  lemma LateHooks(read: Tables, es: seq<Request>, mediaId: int, seasonId: int, four: bool)
    requires Good(read) && Hooks(read, es, IdsOf(es)).Some?
    ensures SetSeason(mediaId, seasonId, four) in Hooks(read, es, IdsOf(es)).value
       <==> LatePutBack(read, es, mediaId, seasonId, four)
  {
    hide Hooks, PutBack, Removal.Sets, IdsOf, UniqueSeasons;
    var s := SetSeason(mediaId, seasonId, four);
    InHooks(read, es, IdsOf(es), s);
    if s in Hooks(read, es, IdsOf(es)).value {
      var k :| 0 <= k < |es| && Removal.Sets(read, IdsOf(es), es[k], s);
      NamesASeason(read, IdsOf(es), es[k], mediaId, seasonId, four);
    }
    if mediaId in read.media {
      forall i | 0 <= i < |read.media[mediaId].seasons| && read.media[mediaId].seasons[i].id == seasonId
        ensures s in Hooks(read, es, IdsOf(es)).value <==> PutBack(read, IdsOf(es), read.media[mediaId], es, i, four)
      {
        HooksSeason(read, es, read.media[mediaId], i, four);
      }
    }
  }

  /**
   * With any steps between a removal's statements and its transaction, a season of the tables met then goes to
   * UNKNOWN exactly when the tables read put back the season of its id, whoever lists it by now.
   */
  lemma StaleRemovalSeason(read: Tables, t: Tables, es: seq<Request>, mediaId: int, j: nat, four: bool)
    requires Good(read) && ValidMedia(t) && mediaId in t.media && j < |t.media[mediaId].seasons|
    requires LateRemoval(read, t, es).Some?
    ensures var m, m' := t.media[mediaId], LateRemoval(read, t, es).value.media[mediaId];
            |m'.seasons| == |m.seasons| && m'.seasons[j].id == m.seasons[j].id
            && m'.seasons[j].number == m.seasons[j].number
            && SeasonStatus(m'.seasons[j], four)
               == if LatePutBack(read, es, mediaId, m.seasons[j].id, four) then M_UNKNOWN
                  else SeasonStatus(m.seasons[j], four)
  {
    hide Hooks, LatePutBack, IdsOf;
    var m := t.media[mediaId];
    SeasonAfter(m, Hooks(read, es, IdsOf(es)).value, j, four);
    LateHooks(read, es, mediaId, m.seasons[j].id, four);
  }

  /** An insert of a PENDING request does no more than its transaction. */
  lemma PendingInsert(o: Oracle, t: Tables, r: Request)
    requires Works(o) && Insertable(t, r) && r.status == PENDING
    ensures Next(o, t, Insert(r)) == WithNew(t, r)
  {
    hide InsertedMedia;
    var t0 := WithNew(t, r);
    assert t0.media[r.mediaId.value := t0.media[r.mediaId.value]] == t0.media;
  }

  /** A series whose season 1 its request lists by an episode row. */
  function SeasonExample(): Tables
  {
    Tables(map[1 := Request(1, Tv, PENDING, false, Some(7), None, false, [], [Child(10, 1, PENDING, None, 0)], 0)],
           map[7 := Media(7, true, M_PENDING, M_UNKNOWN, [MediaSeason(70, 1, M_PENDING, M_UNKNOWN)])])
  }

  /**
   * Such a removal: it finds request 1 alone, request 2 is inserted and lists the season as a season row, and the
   * season goes to UNKNOWN, which a removal of the tables met would not do.
   */
  lemma StaleRemovalSeasonHappens(o: Oracle)
    requires Works(o)
    ensures var t, row := SeasonExample(), Child(11, 1, PENDING, None, 0);
            var e := t.requests[1];
            var r := e.(id := 2, seasons := [row], episodes := []);
            var t1 := Next(o, t, Insert(r));
            Good(t) && Insertable(t, r) && t1.requests.Keys == {1, 2} && t1.requests[2] == r && 7 in t1.media
            && |t1.media[7].seasons| == 1 && SeasonStatus(t1.media[7].seasons[0], false) == M_PENDING
            && LateRemoval(t, t1, [e]).Some? && AfterRemoval(t1, [e]).Some?
            && SeasonStatus(LateRemoval(t, t1, [e]).value.media[7].seasons[0], false) == M_UNKNOWN
            && SeasonStatus(AfterRemoval(t1, [e]).value.media[7].seasons[0], false) == M_PENDING
  {
    hide Next;
    var t, row := SeasonExample(), Child(11, 1, PENDING, None, 0);
    var e := t.requests[1];
    var r := e.(id := 2, seasons := [row], episodes := []);
    assert Good(t) && Insertable(t, r);
    PendingInsert(o, t, r);
    var t1 := WithNew(t, r);
    SeasonLost(t, t1, e, r);
  }

  /** The removal of one request alone. */
  lemma OneRemoved(read: Tables, t: Tables, e: Request)
    requires HasMedia(read, e)
    ensures IdsOf([e]) == {e.id} && LateRemoval(read, t, [e]).Some?
  {
    hide Statements;
    assert [e][0] == e;
    assert [e][..0] == [];
    assert Hooks(read, [], IdsOf([e])) == Some([]);
  }

  lemma OnePutBack(t: Tables, m: Media, e: Request, i: nat, four: bool)
    requires i < |m.seasons|
    ensures PutBack(t, {e.id}, m, [e], i, four)
       <==> e.mediaId == Some(m.id) && e.is4k == four && FallsBack(t, {e.id}, m, e, i)
  {
    hide FallsBack;
    if e.mediaId == Some(m.id) && e.is4k == four && FallsBack(t, {e.id}, m, e, i) { assert [e][0] == e; }
  }

  lemma SeasonLost(t: Tables, t1: Tables, e: Request, r: Request)
    requires t == SeasonExample() && e == t.requests[1] && r.id == 2 && r.seasons == [Child(11, 1, PENDING, None, 0)]
    requires r.status == PENDING && r.mediaId == Some(7) && !r.is4k
    requires t1 == Tables(t.requests[2 := r], t.media)
    ensures LateRemoval(t, t1, [e]).Some? && AfterRemoval(t1, [e]).Some?
            && SeasonStatus(LateRemoval(t, t1, [e]).value.media[7].seasons[0], false) == M_UNKNOWN
            && SeasonStatus(AfterRemoval(t1, [e]).value.media[7].seasons[0], false) == M_PENDING
  {
    hide Hooks, AfterRemoval, LateRemoval, RunOn, IdsOf, PutBack;
    var m := t.media[7];
    OneRemoved(t, t1, e);
    OneRemoved(t1, t1, e);
    OnePutBack(t, m, e, 0, false);
    OnePutBack(t1, m, e, 0, false);
    StaleRemovalSeason(t, t1, [e], 7, 0, false);
    RemovalSeasons(t1, [e], 7, 0, false);
    assert e.episodes[0].number == 1 && r.seasons[0].number == 1;
    assert FallsBack(t, {1}, m, e, 0);
    assert Left(t1, {1}, 7, false, 2);
  }
}
