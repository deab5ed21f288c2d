/** The code of a request save: an entity and a database changed step by step (`backend-rs/src/lifecycle.rs`). */
module LifecycleCode {
  import opened Text
  import opened LifecycleRows
  import opened Lifecycle
  import opened LifecycleSaves

  /** The in-memory request the steps share. */
  class Entity {
    var row: Request

    constructor (row: Request)
      ensures this.row == row
    {
      this.row := row;
    }

    ghost predicate Valid()
      reads this
    {
      UniqueIds(row.seasons) && UniqueIds(row.episodes)
    }
  }

  /** The lifecycle over one database: every method does what its specification says to world and entity. */
  class Lc {
    const o: Oracle
    var w: World

    constructor (o: Oracle, tables: Tables)
      ensures this.o == o && w == World(tables, 0, 0, 0, 0)
    {
      this.o, w := o, World(tables, 0, 0, 0, 0);
    }

    /** A database call: whether it succeeds. */
    method Db() returns (ok: bool)
      modifies this
      ensures ok == o.db(old(w).asked) && w == Asked(old(w))
    {
      ok := o.db(w.asked);
      w := Asked(w);
    }

    /** An outside step: whether it goes on. */
    method Ext() returns (on: bool)
      modifies this
      ensures on == o.ext(old(w).asked) && w == Asked(old(w))
    {
      on := o.ext(w.asked);
      w := Asked(w);
    }

    method MediaById(id: int) returns (m: Option<Option<Media>>)
      modifies this
      ensures m == MediaAt(o, old(w), id) && w == Asked(old(w))
    {
      var ok := Db();
      if !ok { return None; }
      if id in w.tables.media { return Some(Some(w.tables.media[id])); }
      return Some(None);
    }

    /** `write_request`. */
    method WriteRequest(e: Entity, withRow: bool) returns (ok: bool, changed: bool)
      requires e.Valid() && ValidTables(w.tables)
      modifies this, e
      ensures e.Valid() && ValidTables(w.tables)
      ensures Written(w, e.row, ok, changed) == Write(o, old(w), old(e.row), withRow)
      ensures e.row.status == old(e.row.status)
    {
      hide SavedRow, ReloadedChildren, UniqueIds, RowDiffers;
      changed := false;
      ok := Db();
      if !ok || e.row.id !in w.tables.requests { return; }
      var current := w.tables.requests[e.row.id];
      ghost var at := w.asked;
      ok := Db();
      if !ok { return; }
      var saved, rowChanged := WriteRows(current, e.row, withRow, o.clock(w.asked - 1));
      KeepsIds(current, e.row, withRow, o.clock(w.asked - 1));
      w := WithRequest(w, e.row.id, saved);
      ok := Db();
      if !ok { return; }
      KeepsEntityIds(e.row, saved, withRow);
      e.row := Reloaded(e.row, saved, withRow);
      changed := rowChanged;
    }

    /** `save`. It ends: a nested save is never of an APPROVED entity. */
    method SaveEntity(e: Entity, depth: nat) returns (ok: bool)
      requires e.Valid() && ValidTables(w.tables)
      modifies this, e
      ensures e.Valid() && ValidTables(w.tables)
      ensures Outcome(w, e.row, ok) == Save(o, old(w), old(e.row), depth)
      ensures var approved := old(e.row.status) == APPROVED;
              Within(old(w), w, if approved then 1 else 0, if approved then 2 else 1,
                     if approved then depth + 1 else depth)
              && (w.adds == old(w).adds || w.hooks <= old(w).hooks + 1)
      decreases if e.row.status == APPROVED then 1 else 0, 4
    {
      hide Write, AfterUpdate, Within;
      SaveIsBounded(o, w, e.row, depth);
      w := w.(deepest := Max(w.deepest, depth));
      var changed;
      ok, changed := WriteRequest(e, true);
      if ok && changed { AfterUpdateHooks(e, depth); }
    }

    /** `after_update`. */
    method AfterUpdateHooks(e: Entity, depth: nat)
      requires e.Valid() && ValidTables(w.tables)
      modifies this, e
      ensures e.Valid() && ValidTables(w.tables)
      ensures Outcome(w, e.row, true) == AfterUpdate(o, old(w), old(e.row), depth)
      decreases if e.row.status == APPROVED then 1 else 0, 3
    {
      hide SendToRadarr, SendToSonarr, UpdateParent;
      w := w.(hooks := w.hooks + 1);
      var _ := Radarr(e, depth);
      var _ := Sonarr(e, depth);
      var _ := UpdateParentStatus(e);
    }

    /** `after_insert`. */
    method AfterInsertHooks(e: Entity)
      requires e.Valid() && ValidTables(w.tables)
      modifies this, e
      ensures e.Valid() && ValidTables(w.tables)
      ensures Outcome(w, e.row, true) == AfterInsert(o, old(w), old(e.row))
      ensures var most := if old(e.row.status) == APPROVED then 1 else 0;
              Within(old(w), w, most, most, most) && (w.adds == old(w).adds || w.hooks == old(w).hooks)
    {
      hide SendToRadarr, SendToSonarr, UpdateParent, Within;
      InsertIsBounded(o, w, e.row);
      var ok := Radarr(e, 0);
      if ok { ok := Sonarr(e, 0); }
      var _ := UpdateParentStatus(e);
    }

    /** `send_to_radarr`. */
    method Radarr(e: Entity, depth: nat) returns (ok: bool)
      requires e.Valid() && ValidTables(w.tables)
      modifies this, e
      ensures e.Valid() && ValidTables(w.tables)
      ensures Outcome(w, e.row, ok) == SendToRadarr(o, old(w), old(e.row), depth)
      decreases if e.row.status == APPROVED then 1 else 0, 2
    {
      hide RadarrInner, Save, MediaAt;
      if e.row.status != APPROVED || e.row.kind != Movie { return true; }
      ok := SendMovie(e, depth);
      if ok || e.row.mediaId.None? { return true; }
      var media := MediaById(e.row.mediaId.value);
      match media {
        case None => return false;
        case Some(None) => return true;
        case Some(Some(_)) =>
          e.row := e.row.(status := FAILED);
          ok := SaveEntity(e, depth + 1);
      }
    }

    /** `send_to_radarr_inner`. */
    method SendMovie(e: Entity, depth: nat) returns (ok: bool)
      requires e.Valid() && ValidTables(w.tables) && e.row.status == APPROVED
      modifies this, e
      ensures e.Valid() && ValidTables(w.tables)
      ensures Outcome(w, e.row, ok) == RadarrInner(o, old(w), old(e.row), depth)
      decreases 1, 1
    {
      hide Save, MediaAt;
      var server := Ext();
      if !server { return true; }
      if e.row.mediaId.None? { return false; }
      var found := MediaById(e.row.mediaId.value);
      match found {
        case None => return false;
        case Some(None) => return true;
        case Some(Some(media)) =>
          if StatusOf(media, e.row.is4k) == M_AVAILABLE {
            e.row := e.row.(status := COMPLETED);
            ok := SaveEntity(e, depth + 1);
            return;
          }
          ok := Ext();
          if ok { w := w.(adds := w.adds + 1); }
      }
    }

    /** `send_to_sonarr`. */
    method Sonarr(e: Entity, depth: nat) returns (ok: bool)
      requires e.Valid() && ValidTables(w.tables)
      modifies this, e
      ensures e.Valid() && ValidTables(w.tables)
      ensures Outcome(w, e.row, ok) == SendToSonarr(o, old(w), old(e.row), depth)
      decreases if e.row.status == APPROVED then 1 else 0, 2
    {
      hide SonarrInner, Save, MediaAt;
      if e.row.status != APPROVED || e.row.kind != Tv { return true; }
      ok := SendSeries(e, depth);
      if ok || e.row.mediaId.None? { return true; }
      var media := MediaById(e.row.mediaId.value);
      match media {
        case None => return false;
        case Some(None) => return true;
        case Some(Some(_)) =>
          e.row := e.row.(status := FAILED);
          ok := FailQuietly(e.row.id);
      }
    }

    /** `mark_failed_quietly`. */
    method FailQuietly(id: int) returns (ok: bool)
      requires ValidTables(w.tables)
      modifies this
      ensures ValidTables(w.tables)
      ensures forall e: Request :: e.id == id ==> Outcome(w, e, ok) == MarkFailedQuietly(o, old(w), e)
    {
      ok := Db();
      if ok && id in w.tables.requests {
        w := WithRequest(w, id, w.tables.requests[id].(status := FAILED, updatedAt := o.clock(w.asked - 1)));
      }
    }

    /** `send_to_sonarr_inner`. */
    method SendSeries(e: Entity, depth: nat) returns (ok: bool)
      requires e.Valid() && ValidTables(w.tables) && e.row.status == APPROVED
      modifies this, e
      ensures e.Valid() && ValidTables(w.tables)
      ensures Outcome(w, e.row, ok) == SonarrInner(o, old(w), old(e.row), depth)
      decreases 1, 1
    {
      hide Save, MediaAt;
      var configured := Ext();
      if !configured { return true; }
      if e.row.mediaId.None? { return false; }
      var found := MediaById(e.row.mediaId.value);
      match found {
        case None => return false;
        case Some(None) => return false;
        case Some(Some(media)) =>
          var selection := e.row.selection || e.row.episodes != [];
          if StatusOf(media, e.row.is4k) == M_AVAILABLE && !selection {
            e.row := AllCompleted(e.row);
            ok := SaveEntity(e, depth + 1);
            return;
          }
          ok := Ext();
          if !ok { return; }
          var server := Ext();
          if !server { return true; }
          ok := Ext();
          if ok { w := w.(adds := w.adds + 1); }
      }
    }

    /** The transaction of `update_parent_status`: a failure leaves none of its writes. */
    method Commit(e: Entity, id: int, media: Media, cascades: bool) returns (ok: bool)
      requires e.Valid() && ValidTables(w.tables) && media.id == id
      modifies this, e
      ensures e.Valid() && ValidTables(w.tables)
      ensures Outcome(w, e.row, ok) == CommitParent(o, old(w), id, media, old(e.row), cascades)
    {
      hide SavedRow, UniqueIds, ReloadedChildren;
      ok := Db();
      if !ok { return; }
      w := WithMedia(w, id, media);
      if cascades && e.row.id in w.tables.requests {
        var now := o.clock(w.asked - 1);
        var stored := w.tables.requests[e.row.id];
        var saved, _ := WriteRows(stored, e.row, false, now);
        KeepsIds(stored, e.row, false, now);
        w := WithRequest(w, e.row.id, saved);
        ok := Db();
        if !ok { return; }
        KeepsEntityIds(e.row, saved, false);
        e.row := Reloaded(e.row, saved, false);
      }
    }

    /** `update_parent_status`. */
    method UpdateParentStatus(e: Entity) returns (ok: bool)
      requires e.Valid() && ValidTables(w.tables)
      modifies this, e
      ensures e.Valid() && ValidTables(w.tables)
      ensures Outcome(w, e.row, ok) == UpdateParent(o, old(w), old(e.row))
    {
      hide MediaAt, UniqueIds, ParentMedia, Cascaded, CommitParent;
      if e.row.mediaId.None? { return true; }
      var id := e.row.mediaId.value;
      var found := MediaById(id);
      MediaAtHas(o, old(w), id);
      if found.None? { return false; }
      if found.value.None? { return true; }
      var media := found.value.value;
      var cascades := media.isTv && (e.row.status == DECLINED || e.row.status == APPROVED);
      if cascades {
        ok := Db();
        if !ok { return; }
      }
      var changed := ChangedMedia(w.tables, media, e.row);
      ParentMediaId(w.tables, media, e.row);
      if cascades {
        KeepsChildIds(e.row);
        e.row := Cascaded(e.row);
      }
      ok := Commit(e, id, changed, cascades);
    }
  }

  /** The media writes of `update_parent_status`, one after the other. */
  method ChangedMedia(t: Tables, media: Media, e: Request) returns (changed: Media)
    ensures changed == ParentMedia(t, media, e)
  {
    hide OtherPending, DeclinedSeasons;
    var four, current := e.is4k, StatusOf(media, e.is4k);
    changed := media;
    if e.status == APPROVED && !Underway(current) { changed := WithStatus(changed, four, M_PROCESSING); }
    if !media.isTv && e.status == DECLINED && current != M_DELETED {
      changed := WithStatus(changed, four, M_UNKNOWN);
    }
    if media.isTv && e.status == DECLINED {
      if current == M_PENDING && !OtherPending(t, e) { changed := WithStatus(changed, four, M_UNKNOWN); }
      var seasons := DeclineSeasons(t, media, e);
      changed := changed.(seasons := seasons);
    }
  }

  lemma MediaAtHas(o: Oracle, w: World, id: int)
    ensures var m := MediaAt(o, w, id);
            m.Some? && m.value.Some? ==> id in w.tables.media && m.value.value == w.tables.media[id]
  {
  }

  lemma KeepsEntityIds(e: Request, stored: Request, withRow: bool)
    requires UniqueIds(e.seasons) && UniqueIds(e.episodes)
    ensures var r := Reloaded(e, stored, withRow); UniqueIds(r.seasons) && UniqueIds(r.episodes) && r.status == e.status
  {
    hide Find;
  }

  lemma KeepsChildIds(e: Request)
    requires UniqueIds(e.seasons) && UniqueIds(e.episodes)
    ensures UniqueIds(Cascaded(e).seasons) && UniqueIds(Cascaded(e).episodes)
  {
  }
}
