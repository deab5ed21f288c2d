/**
 * The removal of requests (`after_remove` of `backend-rs/src/lifecycle.rs`, run by the routes in the transaction of
 * the deletes).
 */
module Removal {
  import opened Text
  import opened LifecycleRows

  /** What `after_remove` hands back: the media's `COALESCE` update, and a season of it put back to UNKNOWN. */
  datatype Statement =
    | SetMedia(mediaId: int, status: Option<int>, status4k: Option<int>)
    | SetSeason(mediaId: int, seasonId: int, four: bool)

  // ------------------------------------------------------------ what is left

  /** A request of the media in one quality that the removal leaves. */
  predicate Left(t: Tables, gone: set<int>, mediaId: int, four: bool, id: int)
  {
    id in t.requests && id !in gone && t.requests[id].mediaId == Some(mediaId) && t.requests[id].is4k == four
  }

  predicate HasActive(t: Tables, gone: set<int>, mediaId: int, four: bool)
  {
    exists id :: id in t.requests && Left(t, gone, mediaId, four, id) && Active(t.requests[id])
  }

  predicate HadCompleted(t: Tables, gone: set<int>, mediaId: int, four: bool)
  {
    exists id :: id in t.requests && Left(t, gone, mediaId, four, id) && t.requests[id].status == COMPLETED
  }

  predicate ListsAny(r: Request, number: int) { Lists(r.seasons, number) || Lists(r.episodes, number) }

  predicate StillListed(t: Tables, gone: set<int>, mediaId: int, four: bool, number: int)
  {
    exists id :: id in t.requests && Left(t, gone, mediaId, four, id) && Active(t.requests[id])
                 && ListsAny(t.requests[id], number)
  }

  /** The status one quality of the media falls back to. */
  function FallenStatus(t: Tables, gone: set<int>, m: Media, four: bool): int
  {
    var current := StatusOf(m, four);
    if HasActive(t, gone, m.id, four) || current == M_AVAILABLE || current == M_PARTIAL then current
    else if HadCompleted(t, gone, m.id, four) then M_DELETED
    else M_UNKNOWN
  }

  /** The removal of `e` puts back season `i` of its series. */
  predicate FallsBack(t: Tables, gone: set<int>, m: Media, e: Request, i: nat)
    requires i < |m.seasons|
  {
    var current := SeasonStatus(m.seasons[i], e.is4k);
    m.isTv && ListsAny(e, m.seasons[i].number) && !StillListed(t, gone, m.id, e.is4k, m.seasons[i].number)
    && (current == M_PENDING || current == M_PROCESSING)
  }

  // -------------------------------------------------------------- after_remove

  function Changed(to: int, from: int): Option<int> { if to == from then None else Some(to) }

  function MediaStatement(t: Tables, gone: set<int>, m: Media): Statement
  {
    SetMedia(m.id, Changed(FallenStatus(t, gone, m, false), m.status),
      Changed(FallenStatus(t, gone, m, true), m.status4k))
  }

  function SeasonStatements(t: Tables, gone: set<int>, m: Media, e: Request, n: nat): seq<Statement>
    requires n <= |m.seasons|
  {
    if n == 0 then []
    else SeasonStatements(t, gone, m, e, n - 1)
         + (if FallsBack(t, gone, m, e, n - 1) then [SetSeason(m.id, m.seasons[n - 1].id, e.is4k)] else [])
  }

  function Statements(t: Tables, gone: set<int>, m: Media, e: Request): seq<Statement>
  {
    var s := MediaStatement(t, gone, m);
    (if s.status.Some? || s.status4k.Some? then [s] else []) + SeasonStatements(t, gone, m, e, |m.seasons|)
  }

  predicate HasMedia(t: Tables, e: Request) { e.mediaId.Some? && e.mediaId.value in t.media }

  /** `after_remove`: the statements, or an error without a media row. */
  method AfterRemove(t: Tables, e: Request, removed: set<int>) returns (r: Option<seq<Statement>>)
    requires ValidMedia(t)
    ensures r == if HasMedia(t, e) then Some(Statements(t, removed + {e.id}, t.media[e.mediaId.value], e)) else None
  {
    hide HasActive, HadCompleted, StillListed, ListsAny;
    if e.mediaId.None? || e.mediaId.value !in t.media { return None; }
    var media := t.media[e.mediaId.value];
    var gone := removed + {e.id};
    var status, status4k := Fallback(t, gone, media, false), Fallback(t, gone, media, true);
    var writes := [];
    if status.Some? || status4k.Some? { writes := [SetMedia(media.id, status, status4k)]; }
    ghost var head := writes;
    if media.isTv {
      for k := 0 to |media.seasons|
        invariant writes == head + SeasonStatements(t, gone, media, e, k)
      {
        var season := media.seasons[k];
        var current := SeasonStatus(season, e.is4k);
        if ListsAny(e, season.number) && !StillListed(t, gone, media.id, e.is4k, season.number)
           && (current == M_PENDING || current == M_PROCESSING) {
          writes := writes + [SetSeason(media.id, season.id, e.is4k)];
        }
      }
    } else {
      NoSeasonStatements(t, gone, media, e, |media.seasons|);
      assert head + [] == head;
    }
    return Some(writes);
  }

  /** The fallback of one quality, when it is not the status already there. */
  function Fallback(t: Tables, gone: set<int>, m: Media, four: bool): (r: Option<int>)
    ensures r == Changed(FallenStatus(t, gone, m, four), StatusOf(m, four))
  {
    var current := StatusOf(m, four);
    if HasActive(t, gone, m.id, four) || current == M_AVAILABLE || current == M_PARTIAL then None
    else
      var to := if HadCompleted(t, gone, m.id, four) then M_DELETED else M_UNKNOWN;
      if to != current then Some(to) else None
  }

  lemma {:induction false} NoSeasonStatements(t: Tables, gone: set<int>, m: Media, e: Request, n: nat)
    requires n <= |m.seasons| && !m.isTv
    ensures SeasonStatements(t, gone, m, e, n) == []
  {
    if n > 0 { NoSeasonStatements(t, gone, m, e, n - 1); }
  }

  // ---------------------------------------------------------- the transaction

  predicate ValidMedia(t: Tables) { forall id :: id in t.media ==> t.media[id].id == id }

  function Coalesce(to: Option<int>, from: int): int { if to.Some? then to.value else from }

  /** A statement on one media row. */
  function OnMedia(m: Media, s: Statement): (r: Media)
    ensures r.id == m.id && |r.seasons| == |m.seasons|
  {
    if s.mediaId != m.id then m
    else match s
      case SetMedia(_, a, b) => m.(status := Coalesce(a, m.status), status4k := Coalesce(b, m.status4k))
      case SetSeason(_, id, four) =>
        m.(seasons := seq(|m.seasons|, i requires 0 <= i < |m.seasons| =>
          if m.seasons[i].id == id then WithSeasonStatus(m.seasons[i], four, M_UNKNOWN) else m.seasons[i]))
  }

  function RunOn(m: Media, ss: seq<Statement>): (r: Media)
    ensures r.id == m.id && |r.seasons| == |m.seasons|
  {
    if ss == [] then m else OnMedia(RunOn(m, ss[..|ss| - 1]), ss[|ss| - 1])
  }

  function MediaAfter(t: Tables, ss: seq<Statement>): map<int, Media>
  {
    map id | id in t.media :: RunOn(t.media[id], ss)
  }

  function Execute(media: map<int, Media>, s: Statement): map<int, Media>
  {
    if s.mediaId in media then media[s.mediaId := OnMedia(media[s.mediaId], s)] else media
  }

  /** The statements of the requests `es`, or none when one of them has no media row. */
  function Hooks(t: Tables, es: seq<Request>, gone: set<int>): Option<seq<Statement>>
  {
    if es == [] then Some([])
    else
      var e := es[|es| - 1];
      var before := Hooks(t, es[..|es| - 1], gone);
      if before.None? || !HasMedia(t, e) then None
      else Some(before.value + Statements(t, gone + {e.id}, t.media[e.mediaId.value], e))
  }

  function Loaded(t: Tables, ids: seq<int>): (r: seq<Request>)
  {
    if ids == [] then []
    else Loaded(t, ids[..|ids| - 1]) + (if ids[|ids| - 1] in t.requests then [t.requests[ids[|ids| - 1]]] else [])
  }

  function IdsOf(es: seq<Request>): set<int> { set i | 0 <= i < |es| :: es[i].id }

  /** The tables after the requests `es` went. */
  function AfterRemoval(t: Tables, es: seq<Request>): Option<Tables>
  {
    var hooks := Hooks(t, es, IdsOf(es));
    if hooks.None? then None
    else Some(Tables(t.requests - IdsOf(es), MediaAfter(t, hooks.value)))
  }

  /** The removal of the requests `ids`: the hooks first, then deletes and statements in one transaction. */
  method Remove(t: Tables, ids: seq<int>) returns (r: Option<Tables>)
    requires ValidMedia(t)
    ensures r == AfterRemoval(t, Loaded(t, ids))
  {
    hide Statements, MediaAfter;
    var es := [];
    for k := 0 to |ids|
      invariant es == Loaded(t, ids[..k])
    {
      assert ids[..k + 1][..k] == ids[..k];
      if ids[k] in t.requests { es := es + [t.requests[ids[k]]]; }
    }
    assert ids[..|ids|] == ids;
    var gone := IdsOf(es);
    var hooks: seq<Statement> := [];
    for k := 0 to |es|
      invariant Hooks(t, es[..k], gone) == Some(hooks)
    {
      assert es[..k + 1][..k] == es[..k];
      var hook := AfterRemove(t, es[k], gone);
      if hook.None? {
        FailsLater(t, es, gone, k + 1);
        return None;
      }
      hooks := hooks + hook.value;
    }
    assert es[..|es|] == es;
    var media := RunAll(t, hooks);
    return Some(Tables(t.requests - gone, media));
  }

  method RunAll(t: Tables, ss: seq<Statement>) returns (media: map<int, Media>)
    requires ValidMedia(t)
    ensures media == MediaAfter(t, ss)
  {
    hide OnMedia;
    media := t.media;
    for k := 0 to |ss|
      invariant media.Keys == t.media.Keys
      invariant forall id :: id in t.media ==> media[id] == RunOn(t.media[id], ss[..k])
    {
      assert ss[..k + 1][..k] == ss[..k];
      var before := media;
      media := Execute(media, ss[k]);
      forall id | id in t.media ensures media[id] == RunOn(t.media[id], ss[..k + 1]) {
        OtherMedia(before[id], ss[k]);
      }
    }
    assert ss[..|ss|] == ss;
    ghost var all := MediaAfter(t, ss);
    assert media.Keys == all.Keys;
    assert forall id :: id in media ==> media[id] == all[id];
    assert media == all;
  }

  lemma OtherMedia(m: Media, s: Statement)
    ensures s.mediaId != m.id ==> OnMedia(m, s) == m
  {
  }

  lemma {:induction false} FailsLater(t: Tables, es: seq<Request>, gone: set<int>, k: nat)
    requires k <= |es| && Hooks(t, es[..k], gone).None?
    ensures Hooks(t, es, gone).None?
    decreases |es| - k
  {
    if k == |es| { assert es[..k] == es; }
    else {
      assert es[..k + 1][..k] == es[..k];
      FailsLater(t, es, gone, k + 1);
    }
  }

  // ------------------------------------------------------------- its outcome

  predicate UniqueSeasons(m: Media)
  {
    forall i, j :: 0 <= i < j < |m.seasons| ==> m.seasons[i].id != m.seasons[j].id
  }

  /** One of the requests is of the media. */
  predicate Touched(es: seq<Request>, mediaId: int)
  {
    exists k :: 0 <= k < |es| && es[k].mediaId == Some(mediaId)
  }

  /** The removal of one of the requests puts back season `i` in the quality. */
  predicate PutBack(t: Tables, gone: set<int>, m: Media, es: seq<Request>, i: nat, four: bool)
    requires i < |m.seasons|
  {
    exists k :: 0 <= k < |es| && es[k].mediaId == Some(m.id) && es[k].is4k == four && FallsBack(t, gone, m, es[k], i)
  }

  /** A season after the statements: UNKNOWN in the qualities named, else as it was. */
  lemma {:induction false} SeasonAfter(m: Media, ss: seq<Statement>, i: nat, four: bool)
    requires i < |m.seasons|
    ensures RunOn(m, ss).seasons[i].id == m.seasons[i].id && RunOn(m, ss).seasons[i].number == m.seasons[i].number
    ensures SeasonStatus(RunOn(m, ss).seasons[i], four)
         == if SetSeason(m.id, m.seasons[i].id, four) in ss then M_UNKNOWN else SeasonStatus(m.seasons[i], four)
    decreases |ss|
  {
    if ss != [] {
      var last := ss[|ss| - 1];
      assert ss == ss[..|ss| - 1] + [last];
      SeasonAfter(m, ss[..|ss| - 1], i, four);
    }
  }

  /** The media's status after the statements, which set it to one value at most. */
  lemma {:induction false} StatusAfter(m: Media, ss: seq<Statement>, s: Statement, four: bool)
    requires s.SetMedia? && s.mediaId == m.id
    requires forall k :: 0 <= k < |ss| && ss[k].SetMedia? && ss[k].mediaId == m.id ==> ss[k] == s
    ensures StatusOf(RunOn(m, ss), four)
         == if s in ss then Coalesce(if four then s.status4k else s.status, StatusOf(m, four)) else StatusOf(m, four)
    ensures RunOn(m, ss).isTv == m.isTv
    decreases |ss|
  {
    if ss != [] {
      var last := ss[|ss| - 1];
      assert ss == ss[..|ss| - 1] + [last];
      StatusAfter(m, ss[..|ss| - 1], s, four);
      StatusAfterLast(RunOn(m, ss[..|ss| - 1]), last, four);
    }
  }

  lemma StatusAfterLast(m: Media, s: Statement, four: bool)
    ensures OnMedia(m, s).isTv == m.isTv
    ensures StatusOf(OnMedia(m, s), four)
         == if s.SetMedia? && s.mediaId == m.id then Coalesce(if four then s.status4k else s.status, StatusOf(m, four))
            else StatusOf(m, four)
  {
  }

  lemma {:induction false} InSeasonStatements(t: Tables, gone: set<int>, m: Media, e: Request, n: nat, s: Statement)
    requires n <= |m.seasons|
    ensures s in SeasonStatements(t, gone, m, e, n)
       <==> exists i :: 0 <= i < n && FallsBack(t, gone, m, e, i) && s == SetSeason(m.id, m.seasons[i].id, e.is4k)
  {
    hide FallsBack;
    if n > 0 { InSeasonStatements(t, gone, m, e, n - 1, s); }
  }

  /** What one hook sets. */
  lemma InStatements(t: Tables, gone: set<int>, m: Media, e: Request, s: Statement)
    ensures s in Statements(t, gone, m, e)
       <==> ((s == MediaStatement(t, gone, m) && (s.status.Some? || s.status4k.Some?))
             || exists i :: 0 <= i < |m.seasons| && FallsBack(t, gone, m, e, i)
                            && s == SetSeason(m.id, m.seasons[i].id, e.is4k))
  {
    hide FallsBack, FallenStatus;
    InSeasonStatements(t, gone, m, e, |m.seasons|, s);
  }

  predicate Sets(t: Tables, gone: set<int>, e: Request, s: Statement)
  {
    HasMedia(t, e) && s in Statements(t, gone + {e.id}, t.media[e.mediaId.value], e)
  }

  lemma {:induction false} InHooks(t: Tables, es: seq<Request>, gone: set<int>, s: Statement)
    ensures Hooks(t, es, gone).None? <==> exists k :: 0 <= k < |es| && !HasMedia(t, es[k])
    ensures (Hooks(t, es, gone).Some?
             ==> (s in Hooks(t, es, gone).value <==> exists k :: 0 <= k < |es| && Sets(t, gone, es[k], s)))
    decreases |es|
  {
    hide Statements, HasMedia;
    if es != [] {
      var last := es[|es| - 1];
      assert es == es[..|es| - 1] + [last];
      InHooks(t, es[..|es| - 1], gone, s);
      if Hooks(t, es, gone).Some? {
        assert forall k :: 0 <= k < |es| - 1 ==> es[..|es| - 1][k] == es[k];
      }
    }
  }

  /** The hooks put a season back exactly when one of the requests does. */
  lemma HooksSeason(t: Tables, es: seq<Request>, m: Media, i: nat, four: bool)
    requires ValidMedia(t) && m.id in t.media && t.media[m.id] == m && UniqueSeasons(m) && i < |m.seasons|
    requires Hooks(t, es, IdsOf(es)).Some?
    ensures SetSeason(m.id, m.seasons[i].id, four) in Hooks(t, es, IdsOf(es)).value
        <==> PutBack(t, IdsOf(es), m, es, i, four)
  {
    hide FallsBack, Hooks, Statements, MediaStatement, Sets;
    var gone, s := IdsOf(es), SetSeason(m.id, m.seasons[i].id, four);
    InHooks(t, es, gone, s);
    forall k | 0 <= k < |es|
      ensures Sets(t, gone, es[k], s)
         <==> (es[k].mediaId == Some(m.id) && es[k].is4k == four && FallsBack(t, gone, m, es[k], i))
    {
      InHooks(t, es, gone, s);
      HookSeason(t, gone, es[k], m, i, four);
    }
  }

  lemma MediaId(t: Tables, id: int)
    requires ValidMedia(t) && id in t.media
    ensures t.media[id].id == id
  {
  }

  lemma HookSeason(t: Tables, gone: set<int>, e: Request, m: Media, i: nat, four: bool)
    requires ValidMedia(t) && m.id in t.media && t.media[m.id] == m && UniqueSeasons(m) && i < |m.seasons|
    requires e.id in gone && HasMedia(t, e)
    ensures Sets(t, gone, e, SetSeason(m.id, m.seasons[i].id, four))
       <==> (e.mediaId == Some(m.id) && e.is4k == four && FallsBack(t, gone, m, e, i))
  {
    hide FallsBack, Statements, FallenStatus;
    MediaId(t, e.mediaId.value);
    var of, season := t.media[e.mediaId.value], SetSeason(m.id, m.seasons[i].id, four);
    assert gone + {e.id} == gone;
    InStatements(t, gone, of, e, season);
    if of.id == m.id {
      assert of == m;
      assert forall j :: 0 <= j < |m.seasons| && m.seasons[j].id == m.seasons[i].id ==> j == i;
    }
  }

  lemma HookMedia(t: Tables, gone: set<int>, e: Request, m: Media, s: Statement)
    requires ValidMedia(t) && m.id in t.media && t.media[m.id] == m && s.SetMedia? && s.mediaId == m.id
    requires e.id in gone && HasMedia(t, e)
    ensures Sets(t, gone, e, s)
       <==> (e.mediaId == Some(m.id) && s == MediaStatement(t, gone, m) && (s.status.Some? || s.status4k.Some?))
  {
    hide FallsBack, Statements, FallenStatus;
    MediaId(t, e.mediaId.value);
    var of := t.media[e.mediaId.value];
    assert gone + {e.id} == gone;
    InStatements(t, gone, of, e, s);
    if of.id == m.id { assert of == m; }
  }

  /** The hooks set a media's status to its fallback, and only when one of the requests is of it. */
  lemma HooksMedia(t: Tables, es: seq<Request>, m: Media, s: Statement)
    requires ValidMedia(t) && m.id in t.media && t.media[m.id] == m && s.SetMedia? && s.mediaId == m.id
    requires Hooks(t, es, IdsOf(es)).Some?
    ensures s in Hooks(t, es, IdsOf(es)).value
       <==> (Touched(es, m.id) && s == MediaStatement(t, IdsOf(es), m) && (s.status.Some? || s.status4k.Some?))
  {
    hide FallsBack, Hooks, Statements, FallenStatus, Sets;
    var gone := IdsOf(es);
    InHooks(t, es, gone, s);
    forall k | 0 <= k < |es|
      ensures Sets(t, gone, es[k], s)
         <==> (es[k].mediaId == Some(m.id) && s == MediaStatement(t, gone, m) && (s.status.Some? || s.status4k.Some?))
    {
      InHooks(t, es, gone, s);
      HookMedia(t, gone, es[k], m, s);
    }
  }

  /**
   * A removal fails when one of its requests has no media row. Else every media one of them was of has, in both
   * qualities, the status its remaining requests leave it, and exactly the seasons one of them lists and no
   * remaining active request of the quality does went back, from PENDING or PROCESSING.
   */
  lemma RemovalOutcome(t: Tables, es: seq<Request>, mediaId: int, four: bool)
    requires ValidMedia(t) && mediaId in t.media && UniqueSeasons(t.media[mediaId])
    ensures AfterRemoval(t, es).None? <==> exists k :: 0 <= k < |es| && !HasMedia(t, es[k])
    ensures (AfterRemoval(t, es).Some? ==>
               var m, m' := t.media[mediaId], AfterRemoval(t, es).value.media[mediaId];
               m'.id == m.id && m'.isTv == m.isTv
               && StatusOf(m', four) == (if Touched(es, m.id) then FallenStatus(t, IdsOf(es), m, four)
                  else StatusOf(m, four)))
  {
    hide Hooks, FallenStatus, Touched, IdsOf, HasMedia;
    var m, gone := t.media[mediaId], IdsOf(es);
    var s := MediaStatement(t, gone, m);
    InHooks(t, es, gone, s);
    if Hooks(t, es, gone).Some? {
      var ss := Hooks(t, es, gone).value;
      forall k | 0 <= k < |ss| && ss[k].SetMedia? && ss[k].mediaId == m.id ensures ss[k] == s {
        HooksMedia(t, es, m, ss[k]);
      }
      HooksMedia(t, es, m, s);
      StatusAfter(m, ss, s, four);
    }
  }

  lemma RemovalSeasons(t: Tables, es: seq<Request>, mediaId: int, i: nat, four: bool)
    requires ValidMedia(t) && mediaId in t.media && UniqueSeasons(t.media[mediaId])
    requires i < |t.media[mediaId].seasons| && AfterRemoval(t, es).Some?
    ensures var m, m' := t.media[mediaId], AfterRemoval(t, es).value.media[mediaId];
            |m'.seasons| == |m.seasons| && m'.seasons[i].number == m.seasons[i].number
            && m'.seasons[i].id == m.seasons[i].id
            && SeasonStatus(m'.seasons[i], four)
               == (if PutBack(t, IdsOf(es), m, es, i, four) then M_UNKNOWN else SeasonStatus(m.seasons[i], four))
  {
    hide Hooks, PutBack, IdsOf;
    var m := t.media[mediaId];
    SeasonAfter(m, Hooks(t, es, IdsOf(es)).value, i, four);
    HooksSeason(t, es, m, i, four);
  }
}
