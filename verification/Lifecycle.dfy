/**
 * A request save with its hooks as functions of entity and world (`backend-rs/src/lifecycle.rs`, lines 153 to 1258).
 */
module Lifecycle {
  import opened Text
  import opened LifecycleRows

  /**
   * What the outside answers, by a running number: whether the n-th database call succeeds, whether the n-th
   * external step goes on, and the clock.
   */
  datatype Oracle = Oracle(db: nat -> bool, ext: nat -> bool, clock: nat -> int)

  /** The tables, the calls made so far, the adds started, the hook runs, and the deepest save. */
  datatype World = World(tables: Tables, asked: nat, adds: nat, hooks: nat, deepest: nat)

  function Asked(w: World): World { w.(asked := w.asked + 1) }

  function Max(a: nat, b: nat): nat { if a >= b then a else b }

  /** The world and the entity after a step, and whether it returned without an error. */
  datatype Outcome = Outcome(w: World, e: Request, ok: bool)

  datatype Written = Written(w: World, e: Request, ok: bool, changed: bool)

  function WithRequest(w: World, id: int, r: Request): World
  {
    w.(tables := w.tables.(requests := w.tables.requests[id := r]))
  }

  function WithMedia(w: World, id: int, m: Media): World
  {
    w.(tables := w.tables.(media := w.tables.media[id := m]))
  }

  // -------------------------------------------------------------- the specification

  /** `write_request`: the transaction commits or leaves everything; a failed reload comes after the commit. */
  function Write(o: Oracle, w: World, e: Request, withRow: bool): Written
  {
    var w1 := Asked(w);
    if !o.db(w.asked) then Written(w1, e, false, false)
    else if e.id !in w.tables.requests then Written(w1, e, true, false)
    else
      var w2 := Asked(w1);
      if !o.db(w1.asked) then Written(w2, e, false, false)
      else
        var stored := w.tables.requests[e.id];
        var saved := SavedRow(stored, e, withRow, o.clock(w1.asked));
        var w3 := Asked(WithRequest(w2, e.id, saved));
        if !o.db(w2.asked) then Written(w3, e, false, false)
        else Written(w3, Reloaded(e, saved, withRow), true, withRow && RowDiffers(stored, e))
  }

  /** `media_by_ids` of one id: none when the call fails. */
  function MediaAt(o: Oracle, w: World, id: int): Option<Option<Media>>
  {
    if !o.db(w.asked) then None
    else if id in w.tables.media then Some(Some(w.tables.media[id]))
    else Some(None)
  }

  /** `save`: the writes, and the update hooks when the request row changed. */
  function Save(o: Oracle, w: World, e: Request, depth: nat): Outcome
    decreases if e.status == APPROVED then 1 else 0, 4
  {
    var r := Write(o, w.(deepest := Max(w.deepest, depth)), e, true);
    if !r.ok then Outcome(r.w, r.e, false)
    else if r.changed then AfterUpdate(o, r.w, r.e, depth)
    else Outcome(r.w, r.e, true)
  }

  /** `after_update`: errors of the sends and of the parent's update are only logged. */
  function AfterUpdate(o: Oracle, w: World, e: Request, depth: nat): Outcome
    decreases if e.status == APPROVED then 1 else 0, 3
  {
    var radarr := SendToRadarr(o, w.(hooks := w.hooks + 1), e, depth);
    var sonarr := SendToSonarr(o, radarr.w, radarr.e, depth);
    var parent := UpdateParent(o, sonarr.w, sonarr.e);
    Outcome(parent.w, parent.e, true)
  }

  /** `send_to_radarr`: an error marks the request FAILED in a nested save, unless its media row is gone. */
  function SendToRadarr(o: Oracle, w: World, e: Request, depth: nat): (r: Outcome)
    ensures r.e.status == APPROVED ==> e.status == APPROVED
    decreases if e.status == APPROVED then 1 else 0, 2
  {
    if e.status != APPROVED || e.kind != Movie then Outcome(w, e, true)
    else
      var inner := RadarrInner(o, w, e, depth);
      if inner.ok || inner.e.mediaId.None? then Outcome(inner.w, inner.e, true)
      else match MediaAt(o, inner.w, inner.e.mediaId.value)
        case None => Outcome(Asked(inner.w), inner.e, false)
        case Some(None) => Outcome(Asked(inner.w), inner.e, true)
        case Some(Some(_)) => Save(o, Asked(inner.w), inner.e.(status := FAILED), depth + 1)
  }

  /** `send_to_radarr_inner`: its outside steps are the server's lookup, and what precedes the add. */
  function RadarrInner(o: Oracle, w: World, e: Request, depth: nat): (r: Outcome)
    requires e.status == APPROVED
    decreases 1, 1
  {
    var w1 := Asked(w);
    if !o.ext(w.asked) then Outcome(w1, e, true)
    else if e.mediaId.None? then Outcome(w1, e, false)
    else match MediaAt(o, w1, e.mediaId.value)
      case None => Outcome(Asked(w1), e, false)
      case Some(None) => Outcome(Asked(w1), e, true)
      case Some(Some(media)) =>
        var w2 := Asked(w1);
        if StatusOf(media, e.is4k) == M_AVAILABLE then Save(o, w2, e.(status := COMPLETED), depth + 1)
        else if !o.ext(w2.asked) then Outcome(Asked(w2), e, false)
        else Outcome(Asked(w2).(adds := w2.adds + 1), e, true)
  }

  /** `send_to_sonarr`: an error marks the request FAILED without hooks. */
  function SendToSonarr(o: Oracle, w: World, e: Request, depth: nat): (r: Outcome)
    ensures r.e.status == APPROVED ==> e.status == APPROVED
    decreases if e.status == APPROVED then 1 else 0, 2
  {
    if e.status != APPROVED || e.kind != Tv then Outcome(w, e, true)
    else
      var inner := SonarrInner(o, w, e, depth);
      if inner.ok || inner.e.mediaId.None? then Outcome(inner.w, inner.e, true)
      else match MediaAt(o, inner.w, inner.e.mediaId.value)
        case None => Outcome(Asked(inner.w), inner.e, false)
        case Some(None) => Outcome(Asked(inner.w), inner.e, true)
        case Some(Some(_)) => MarkFailedQuietly(o, Asked(inner.w), inner.e.(status := FAILED))
  }

  /** `mark_failed_quietly` after the entity took the status. */
  function MarkFailedQuietly(o: Oracle, w: World, e: Request): Outcome
  {
    if !o.db(w.asked) then Outcome(Asked(w), e, false)
    else if e.id !in w.tables.requests then Outcome(Asked(w), e, true)
    else
      var stored := w.tables.requests[e.id];
      Outcome(Asked(WithRequest(w, e.id, stored.(status := FAILED, updatedAt := o.clock(w.asked)))), e, true)
  }

  /** The entity and its children COMPLETED. */
  function AllCompleted(e: Request): Request { Cascaded(e.(status := COMPLETED)) }

  /** `send_to_sonarr_inner`: its outside steps are the configuration, TMDB, the server's lookup and the tag. */
  function SonarrInner(o: Oracle, w: World, e: Request, depth: nat): (r: Outcome)
    requires e.status == APPROVED
    decreases 1, 1
  {
    var w1 := Asked(w);
    if !o.ext(w.asked) then Outcome(w1, e, true)
    else if e.mediaId.None? then Outcome(w1, e, false)
    else match MediaAt(o, w1, e.mediaId.value)
      case None => Outcome(Asked(w1), e, false)
      case Some(None) => Outcome(Asked(w1), e, false)
      case Some(Some(media)) =>
        var w2 := Asked(w1);
        if StatusOf(media, e.is4k) == M_AVAILABLE && !e.selection && e.episodes == [] then
          Save(o, w2, AllCompleted(e), depth + 1)
        else
          var w3, w4 := Asked(w2), Asked(Asked(w2));
          if !o.ext(w2.asked) then Outcome(w3, e, false)
          else if !o.ext(w3.asked) then Outcome(w4, e, true)
          else if !o.ext(w4.asked) then Outcome(Asked(w4), e, false)
          else Outcome(Asked(w4).(adds := w4.adds + 1), e, true)
  }

  /** A decline or approval of a series cascades to the children. */
  predicate Cascades(m: Media, e: Request) { m.isTv && (e.status == DECLINED || e.status == APPROVED) }

  /** The transaction of `update_parent_status` and the reload: the media row, and with `cascades` the children. */
  function CommitParent(o: Oracle, w: World, id: int, m: Media, e: Request, cascades: bool): Outcome
  {
    var w1 := WithMedia(Asked(w), id, m);
    if !o.db(w.asked) then Outcome(Asked(w), e, false)
    else if !(cascades && e.id in w.tables.requests) then Outcome(w1, e, true)
    else
      var saved := SavedRow(w.tables.requests[e.id], e, false, o.clock(w.asked));
      var w2 := Asked(WithRequest(w1, e.id, saved));
      if !o.db(w1.asked) then Outcome(w2, e, false)
      else Outcome(w2, Reloaded(e, saved, false), true)
  }

  /** `update_parent_status`. */
  function UpdateParent(o: Oracle, w: World, e: Request): Outcome
  {
    if e.mediaId.None? then Outcome(w, e, true)
    else match MediaAt(o, w, e.mediaId.value)
      case None => Outcome(Asked(w), e, false)
      case Some(None) => Outcome(Asked(w), e, true)
      case Some(Some(m)) =>
        var w1, changed := Asked(w), ParentMedia(w.tables, m, e);
        if !Cascades(m, e) then CommitParent(o, w1, e.mediaId.value, changed, e, false)
        else if !o.db(w1.asked) then Outcome(Asked(w1), e, false)
        else CommitParent(o, Asked(w1), e.mediaId.value, changed, Cascaded(e), true)
  }

  /**
   * `after_insert`: Sonarr is asked only when Radarr's part ended without an error; the parent is updated either way.
   */
  function AfterInsert(o: Oracle, w: World, e: Request): Outcome
  {
    var radarr := SendToRadarr(o, w, e, 0);
    var sent := if radarr.ok then SendToSonarr(o, radarr.w, radarr.e, 0) else radarr;
    var parent := UpdateParent(o, sent.w, sent.e);
    Outcome(parent.w, parent.e, true)
  }

  ghost predicate ValidTables(t: Tables)
  {
    (forall id :: id in t.requests ==>
       t.requests[id].id == id && UniqueIds(t.requests[id].seasons) && UniqueIds(t.requests[id].episodes))
    && forall id :: id in t.media ==> t.media[id].id == id
  }

  lemma ParentMediaId(t: Tables, m: Media, e: Request)
    ensures ParentMedia(t, m, e).id == m.id
  {
    hide OtherPending, DeclinedSeasons;
  }

  lemma KeepsIds(stored: Request, e: Request, withRow: bool, now: int)
    requires UniqueIds(stored.seasons) && UniqueIds(stored.episodes)
    ensures var saved := SavedRow(stored, e, withRow, now);
            saved.id == stored.id && UniqueIds(saved.seasons) && UniqueIds(saved.episodes)
  {
    hide Find;
  }
}
