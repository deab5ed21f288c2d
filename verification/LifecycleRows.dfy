/**
 * The rows a request save reads and writes (`write_rows`, `reload_dates`, `update_parent_status` of
 * `backend-rs/src/lifecycle.rs`).
 */
module LifecycleRows {
  import opened Text

  // `MediaRequestStatus`.
  const PENDING := 1
  const APPROVED := 2
  const DECLINED := 3
  const FAILED := 4
  const COMPLETED := 5

  // `MediaStatus`.
  const M_UNKNOWN := 1
  const M_PENDING := 2
  const M_PROCESSING := 3
  const M_PARTIAL := 4
  const M_AVAILABLE := 5
  const M_BLOCKLISTED := 6
  const M_DELETED := 7

  /** A season or episode row of a request; `number` is the season's. Season rows are never searched. */
  datatype Child = Child(id: int, number: int, status: int, searched: Option<int>, updatedAt: int)

  datatype Kind = Movie | Tv

  datatype Request = Request(
    id: int, kind: Kind, status: int, is4k: bool, mediaId: Option<int>, modifiedBy: Option<int>,
    selection: bool, seasons: seq<Child>, episodes: seq<Child>, updatedAt: int)

  datatype MediaSeason = MediaSeason(id: int, number: int, status: int, status4k: int)

  datatype Media = Media(id: int, isTv: bool, status: int, status4k: int, seasons: seq<MediaSeason>)

  datatype Tables = Tables(requests: map<int, Request>, media: map<int, Media>)

  /** `status_of`. */
  function StatusOf(m: Media, four: bool): int { if four then m.status4k else m.status }

  function WithStatus(m: Media, four: bool, status: int): Media
  {
    if four then m.(status4k := status) else m.(status := status)
  }

  function SeasonStatus(s: MediaSeason, four: bool): int { if four then s.status4k else s.status }

  function WithSeasonStatus(s: MediaSeason, four: bool, status: int): MediaSeason
  {
    if four then s.(status4k := status) else s.(status := status)
  }

  // -------------------------------------------------------------- child rows

  predicate UniqueIds(rows: seq<Child>) { forall i, j :: 0 <= i < j < |rows| ==> rows[i].id != rows[j].id }

  function Find(rows: seq<Child>, id: int): (r: Option<Child>)
    ensures r.Some? ==> r.value in rows && r.value.id == id
    ensures r.None? ==> forall c :: c in rows ==> c.id != id
  {
    if rows == [] then None else if rows[0].id == id then Some(rows[0]) else Find(rows[1..], id)
  }

  predicate Same(a: Child, b: Child) { a.status == b.status && a.searched == b.searched }

  function Stamped(row: Child, c: Child, now: int): Child
  {
    row.(status := c.status, searched := if c.searched.Some? then Some(now) else None, updatedAt := now)
  }

  /** A stored row after the save of `wanted`: it changes only when a row of its id differs from it. */
  function SavedChild(row: Child, wanted: seq<Child>, now: int): Child
  {
    match Find(wanted, row.id)
    case None => row
    case Some(c) => if Same(c, row) then row else Stamped(row, c, now)
  }

  function SavedChildren(rows: seq<Child>, wanted: seq<Child>, now: int): (r: seq<Child>)
    ensures |r| == |rows| && forall i :: 0 <= i < |rows| ==> r[i] == SavedChild(rows[i], wanted, now)
  {
    seq(|rows|, i requires 0 <= i < |rows| => SavedChild(rows[i], wanted, now))
  }

  /** The request row as a save compares it. */
  predicate RowDiffers(stored: Request, e: Request) { stored.status != e.status || stored.modifiedBy != e.modifiedBy }

  /** The stored request after `write_rows`. */
  function SavedRow(stored: Request, e: Request, withRow: bool, now: int): Request
  {
    var row := if withRow && RowDiffers(stored, e)
               then stored.(status := e.status, modifiedBy := e.modifiedBy, updatedAt := now) else stored;
    row.(seasons := SavedChildren(stored.seasons, e.seasons, now),
         episodes := SavedChildren(stored.episodes, e.episodes, now))
  }

  /** `UPDATE … WHERE "id"`: the rows with one of them stamped. */
  function UpdateChild(rows: seq<Child>, c: Child, now: int): (r: seq<Child>)
    ensures |r| == |rows|
    ensures forall i :: 0 <= i < |rows| ==> r[i] == if rows[i].id == c.id then Stamped(rows[i], c, now) else rows[i]
  {
    seq(|rows|, i requires 0 <= i < |rows| => if rows[i].id == c.id then Stamped(rows[i], c, now) else rows[i])
  }

  /** One loop of `write_rows`: the children that differ from the stored ones, one statement each. */
  method WriteChildren(stored: seq<Child>, wanted: seq<Child>, now: int) returns (rows: seq<Child>)
    requires UniqueIds(stored) && UniqueIds(wanted)
    ensures rows == SavedChildren(stored, wanted, now)
  {
    hide Find, UniqueIds;
    rows := stored;
    NothingWanted(stored, now);
    for k := 0 to |wanted|
      invariant rows == SavedChildren(stored, wanted[..k], now)
    {
      var c := wanted[k];
      var before := Find(stored, c.id);
      assert wanted[..k + 1] == wanted[..k] + [c];
      OneMoreWanted(stored, wanted, k, now);
      if before.Some? && !Same(c, before.value) {
        rows := UpdateChild(rows, c, now);
      }
    }
    assert wanted[..|wanted|] == wanted;
  }

  lemma NothingWanted(stored: seq<Child>, now: int)
    ensures SavedChildren(stored, [], now) == stored
  {
  }

  lemma {:induction false} FindAppend(rows: seq<Child>, c: Child, id: int)
    requires forall r :: r in rows ==> r.id != c.id
    ensures Find(rows + [c], id) == if id == c.id then Some(c) else Find(rows, id)
    decreases |rows|
  {
    if rows == [] {
      assert (rows + [c])[1..] == [];
    } else {
      assert (rows + [c])[1..] == rows[1..] + [c];
      FindAppend(rows[1..], c, id);
    }
  }

  lemma {:induction false} FindOwn(rows: seq<Child>, i: nat)
    requires UniqueIds(rows) && i < |rows|
    ensures Find(rows, rows[i].id) == Some(rows[i])
    decreases |rows|
  {
    if i > 0 { FindOwn(rows[1..], i - 1); }
  }

  lemma OneMoreWanted(stored: seq<Child>, wanted: seq<Child>, k: nat, now: int)
    requires UniqueIds(stored) && UniqueIds(wanted) && k < |wanted|
    ensures var c, before, rows := wanted[k], Find(stored, wanted[k].id), SavedChildren(stored, wanted[..k], now);
            SavedChildren(stored, wanted[..k + 1], now)
            == if before.Some? && !Same(c, before.value) then UpdateChild(rows, c, now) else rows
  {
    hide Find;
    var c := wanted[k];
    var rows := SavedChildren(stored, wanted[..k], now);
    assert wanted[..k + 1] == wanted[..k] + [c];
    forall i | 0 <= i < |stored|
      ensures SavedChild(stored[i], wanted[..k + 1], now)
           == if stored[i].id == c.id then (if Same(c, stored[i]) then rows[i] else Stamped(rows[i], c, now))
             else rows[i]
    {
      FindAppend(wanted[..k], c, stored[i].id);
      FindOwn(stored, i);
      if stored[i].id == c.id { NotFound(wanted[..k], c.id); }
    }
  }

  lemma NotFound(rows: seq<Child>, id: int)
    requires forall r :: r in rows ==> r.id != id
    ensures Find(rows, id) == None
  {
  }

  /** `write_rows`: the stored request after its statements, and whether the row itself was written. */
  method WriteRows(stored: Request, e: Request, withRow: bool, now: int) returns (row: Request, changed: bool)
    requires UniqueIds(stored.seasons) && UniqueIds(stored.episodes) && UniqueIds(e.seasons) && UniqueIds(e.episodes)
    ensures row == SavedRow(stored, e, withRow, now) && changed == (withRow && RowDiffers(stored, e))
  {
    changed := withRow && (stored.status != e.status || stored.modifiedBy != e.modifiedBy);
    row := stored;
    if changed {
      row := row.(status := e.status, modifiedBy := e.modifiedBy, updatedAt := now);
    }
    var seasons := WriteChildren(stored.seasons, e.seasons, now);
    row := row.(seasons := seasons);
    var episodes := WriteChildren(stored.episodes, e.episodes, now);
    row := row.(episodes := episodes);
  }

  // ------------------------------------------------------------------ reloads

  function ReloadedChildren(rows: seq<Child>, reread: seq<Child>): (r: seq<Child>)
    ensures |r| == |rows|
    ensures forall i :: 0 <= i < |rows| ==> r[i] == match Find(reread, rows[i].id)
                                                   case None => rows[i]
                                                   case Some(f) =>
                                                     rows[i].(updatedAt := f.updatedAt, searched := f.searched)
  {
    seq(|rows|, i requires 0 <= i < |rows| =>
      match Find(reread, rows[i].id)
      case None => rows[i]
      case Some(f) => rows[i].(updatedAt := f.updatedAt, searched := f.searched))
  }

  /** `reload_dates`: the dates of the stored rows read back. */
  function Reloaded(e: Request, reread: Request, withRow: bool): Request
  {
    e.(updatedAt := if withRow then reread.updatedAt else e.updatedAt,
       seasons := ReloadedChildren(e.seasons, reread.seasons),
       episodes := ReloadedChildren(e.episodes, reread.episodes))
  }

  /** The entity's children agree with the stored ones of the same ids. */
  predicate ChildrenAgree(rows: seq<Child>, stored: seq<Child>)
  {
    forall i :: 0 <= i < |stored| && Find(rows, stored[i].id).Some? ==> Same(Find(rows, stored[i].id).value, stored[i])
  }

  /** A save of the entity would write nothing. */
  predicate InSync(e: Request, stored: Request)
  {
    !RowDiffers(stored, e) && ChildrenAgree(e.seasons, stored.seasons) && ChildrenAgree(e.episodes, stored.episodes)
  }

  lemma {:induction false} FindReloaded(rows: seq<Child>, reread: seq<Child>, id: int)
    ensures Find(ReloadedChildren(rows, reread), id) ==
      match Find(rows, id)
      case None => None
      case Some(c) => (match Find(reread, id) case None => Some(c)
                       case Some(f) => Some(c.(updatedAt := f.updatedAt, searched := f.searched)))
    decreases |rows|
  {
    if rows != [] {
      assert ReloadedChildren(rows, reread)[1..] == ReloadedChildren(rows[1..], reread);
      FindReloaded(rows[1..], reread, id);
    }
  }

  lemma SavedThenReloadedAgree(rows: seq<Child>, stored: seq<Child>, now: int)
    requires UniqueIds(stored)
    ensures var saved := SavedChildren(stored, rows, now);
            UniqueIds(saved) && ChildrenAgree(ReloadedChildren(rows, saved), saved)
  {
    hide Find, ReloadedChildren;
    var saved := SavedChildren(stored, rows, now);
    assert UniqueIds(saved);
    forall i | 0 <= i < |saved| && Find(ReloadedChildren(rows, saved), saved[i].id).Some?
      ensures Same(Find(ReloadedChildren(rows, saved), saved[i].id).value, saved[i])
    {
      FindReloaded(rows, saved, saved[i].id);
      FindOwn(saved, i);
      assert saved[i].id == stored[i].id;
    }
  }

  /** After a save of row and children and the reload, entity and stored request agree. */
  lemma SavedThenReloadedInSync(stored: Request, e: Request, now: int)
    requires UniqueIds(stored.seasons) && UniqueIds(stored.episodes)
    ensures var saved := SavedRow(stored, e, true, now); InSync(Reloaded(e, saved, true), saved)
  {
    hide ChildrenAgree, UniqueIds, SavedChildren, ReloadedChildren;
    SavedThenReloadedAgree(e.seasons, stored.seasons, now);
    SavedThenReloadedAgree(e.episodes, stored.episodes, now);
  }

  /** A save of an entity in sync leaves the stored request as it is. */
  lemma InSyncWritesNothing(stored: Request, e: Request, withRow: bool, now: int)
    requires InSync(e, stored)
    ensures SavedRow(stored, e, withRow, now) == stored
  {
    hide Find;
    assert SavedChildren(stored.seasons, e.seasons, now) == stored.seasons;
    assert SavedChildren(stored.episodes, e.episodes, now) == stored.episodes;
  }

  // ------------------------------------------------------------ the media row

  /** Another request of the media in this quality is PENDING. */
  predicate OtherPending(t: Tables, e: Request)
  {
    exists id :: id in t.requests && id != e.id && t.requests[id].mediaId == e.mediaId
                 && t.requests[id].is4k == e.is4k && t.requests[id].status == PENDING
  }

  predicate Active(r: Request) { r.status != DECLINED && r.status != COMPLETED }

  predicate Lists(rows: seq<Child>, number: int) { exists i :: 0 <= i < |rows| && rows[i].number == number }

  /** Another active request of the media in this quality lists the season as a season row. */
  predicate OtherLists(t: Tables, e: Request, number: int)
  {
    exists id :: id in t.requests && id != e.id && t.requests[id].mediaId == e.mediaId
                 && t.requests[id].is4k == e.is4k && Active(t.requests[id]) && Lists(t.requests[id].seasons, number)
  }

  predicate FirstOfNumber(seasons: seq<MediaSeason>, i: nat)
    requires i < |seasons|
  {
    forall j :: 0 <= j < i ==> seasons[j].number != seasons[i].number
  }

  /** A decline of the season rows `declined` puts the media's season `i` back. */
  predicate Resets(t: Tables, m: Media, e: Request, declined: seq<Child>, i: nat)
    requires i < |m.seasons|
  {
    SeasonStatus(m.seasons[i], e.is4k) == M_PENDING && FirstOfNumber(m.seasons, i)
    && Lists(declined, m.seasons[i].number) && !OtherLists(t, e, m.seasons[i].number)
  }

  function DeclinedSeason(t: Tables, m: Media, e: Request, declined: seq<Child>, i: nat): MediaSeason
    requires i < |m.seasons|
  {
    if Resets(t, m, e, declined, i) then WithSeasonStatus(m.seasons[i], e.is4k, M_UNKNOWN) else m.seasons[i]
  }

  function DeclinedSeasons(t: Tables, m: Media, e: Request, declined: seq<Child>): (r: seq<MediaSeason>)
    ensures |r| == |m.seasons| && forall i :: 0 <= i < |r| ==> r[i] == DeclinedSeason(t, m, e, declined, i)
  {
    seq(|m.seasons|, i requires 0 <= i < |m.seasons| => DeclinedSeason(t, m, e, declined, i))
  }

  predicate Underway(status: int) { status == M_AVAILABLE || status == M_PARTIAL || status == M_PROCESSING }

  /** The media row after `update_parent_status` for an entity of that media. */
  function ParentMedia(t: Tables, m: Media, e: Request): Media
  {
    var current := StatusOf(m, e.is4k);
    if e.status == APPROVED then
      if Underway(current) then m else WithStatus(m, e.is4k, M_PROCESSING)
    else if e.status != DECLINED then m
    else if !m.isTv then
      if current != M_DELETED then WithStatus(m, e.is4k, M_UNKNOWN) else m
    else
      var m' := if current == M_PENDING && !OtherPending(t, e) then WithStatus(m, e.is4k, M_UNKNOWN) else m;
      m'.(seasons := DeclinedSeasons(t, m, e, e.seasons))
  }

  function FirstSeason(seasons: seq<MediaSeason>, number: int): (i: nat)
    ensures i <= |seasons| && (i < |seasons| ==> seasons[i].number == number)
    ensures forall j :: 0 <= j < i ==> seasons[j].number != number
  {
    if seasons == [] || seasons[0].number == number then 0 else FirstSeason(seasons[1..], number) + 1
  }

  /**
   * The season loop of a decline: each listed season's first row goes back when it was pending for this request
   * alone.
   */
  method DeclineSeasons(t: Tables, m: Media, e: Request) returns (seasons: seq<MediaSeason>)
    ensures seasons == DeclinedSeasons(t, m, e, e.seasons)
  {
    hide OtherLists;
    seasons := m.seasons;
    for k := 0 to |e.seasons|
      invariant seasons == DeclinedSeasons(t, m, e, e.seasons[..k])
    {
      var number := e.seasons[k].number;
      assert e.seasons[..k + 1] == e.seasons[..k] + [e.seasons[k]];
      OneMoreDeclined(t, m, e, k);
      var i := FirstSeason(m.seasons, number);
      if i < |m.seasons| {
        var actual := m.seasons[i];
        if SeasonStatus(actual, e.is4k) == M_PENDING && !OtherLists(t, e, number) {
          seasons := seasons[i := WithSeasonStatus(actual, e.is4k, M_UNKNOWN)];
        }
      }
    }
    assert e.seasons[..|e.seasons|] == e.seasons;
  }

  lemma OneMoreDeclined(t: Tables, m: Media, e: Request, k: nat)
    requires k < |e.seasons|
    ensures var number := e.seasons[k].number;
            var i := FirstSeason(m.seasons, number);
            var before := DeclinedSeasons(t, m, e, e.seasons[..k]);
            DeclinedSeasons(t, m, e, e.seasons[..k + 1]) ==
              if i < |m.seasons| && SeasonStatus(m.seasons[i], e.is4k) == M_PENDING && !OtherLists(t, e, number)
              then before[i := WithSeasonStatus(m.seasons[i], e.is4k, M_UNKNOWN)] else before
  {
    hide OtherLists;
    var number := e.seasons[k].number;
    var at := FirstSeason(m.seasons, number);
    forall i | 0 <= i < |m.seasons|
      ensures Resets(t, m, e, e.seasons[..k + 1], i)
         <==> (Resets(t, m, e, e.seasons[..k], i)
               || (i == at && SeasonStatus(m.seasons[i], e.is4k) == M_PENDING && !OtherLists(t, e, number)))
    {
      ListsMore(e.seasons, k, m.seasons[i].number);
    }
  }

  lemma ListsMore(rows: seq<Child>, k: nat, number: int)
    requires k < |rows|
    ensures Lists(rows[..k + 1], number) <==> Lists(rows[..k], number) || rows[k].number == number
  {
    assert rows[..k + 1][k] == rows[k];
    if Lists(rows[..k], number) {
      var i :| 0 <= i < k && rows[..k][i].number == number;
      assert rows[..k + 1][i].number == number;
    }
    if Lists(rows[..k + 1], number) && rows[k].number != number {
      var i :| 0 <= i < k + 1 && rows[..k + 1][i].number == number;
      assert rows[..k][i].number == number;
    }
  }

  /** The in-memory children take the entity's status. */
  function WithChildStatus(rows: seq<Child>, status: int): (r: seq<Child>)
    ensures |r| == |rows| && forall i :: 0 <= i < |rows| ==> r[i] == rows[i].(status := status)
  {
    seq(|rows|, i requires 0 <= i < |rows| => rows[i].(status := status))
  }

  function Cascaded(e: Request): Request
  {
    e.(seasons := WithChildStatus(e.seasons, e.status), episodes := WithChildStatus(e.episodes, e.status))
  }
}
