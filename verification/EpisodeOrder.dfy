/**
 * Season counting across two numberings of the same episodes (`backend-rs/src/episodeorder.rs`, and the loops of
 * `arr.rs` that use it).
 */
module EpisodeOrder {
  import opened Text
  import Clock

  /** An episode of the aired catalog. */
  datatype CatalogEpisode = CatalogEpisode(tvdbId: int, season: int, episode: int, airDate: Option<string>)

  /** An episode as Sonarr lists it. */
  datatype Episode = Episode(id: int, tvdbId: Option<int>, hasFile: bool, monitored: bool)

  /** `tvdb_of`; Sonarr sends 0 for none. */
  function TvdbOf(e: Episode): Option<int>
  {
    if e.tvdbId.Some? && e.tvdbId.value > 0 then e.tvdbId else None
  }

  /** The TVDB ids Sonarr lists. */
  function Known(episodes: seq<Episode>): set<int>
  {
    set e | e in episodes && TvdbOf(e).Some? :: TvdbOf(e).value
  }

  /** `has_aired`. */
  predicate HasAired(e: CatalogEpisode, now: int)
  {
    e.airDate.Some? && var at := Clock.ParseDateMillis(e.airDate.value); at.Some? && at.value <= now
  }

  // ------------------------------------------------------------ the season split

  datatype SeasonSplit = SeasonSplit(kept: seq<int>, leftOut: seq<int>, unlisted: seq<int>)

  /** Sonarr lists an episode of the aired season. */
  predicate Held(catalog: seq<CatalogEpisode>, season: int, known: set<int>)
  {
    exists i :: 0 <= i < |catalog| && catalog[i].season == season && catalog[i].tvdbId in known
  }

  predicate Aired(catalog: seq<CatalogEpisode>, season: int, now: int)
  {
    exists i :: 0 <= i < |catalog| && catalog[i].season == season && HasAired(catalog[i], now)
  }

  function Select(seasons: seq<int>, p: int -> bool): (r: seq<int>)
    ensures forall s :: s in r ==> s in seasons && p(s)
  {
    if seasons == [] then []
    else
      var last := seasons[|seasons| - 1];
      Select(seasons[..|seasons| - 1], p) + if p(last) then [last] else []
  }

  function IsKept(catalog: seq<CatalogEpisode>, known: set<int>): int -> bool { s => Held(catalog, s, known) }

  function IsLeftOut(catalog: seq<CatalogEpisode>, known: set<int>, now: int): int -> bool
  {
    s => !Held(catalog, s, known) && Aired(catalog, s, now)
  }

  function IsUnlisted(catalog: seq<CatalogEpisode>, known: set<int>, now: int): int -> bool
  {
    s => !Held(catalog, s, known) && !Aired(catalog, s, now)
  }

  function Split(catalog: seq<CatalogEpisode>, seasons: seq<int>, episodes: seq<Episode>, now: int): SeasonSplit
  {
    var known := Known(episodes);
    SeasonSplit(Select(seasons, IsKept(catalog, known)), Select(seasons, IsLeftOut(catalog, known, now)),
                Select(seasons, IsUnlisted(catalog, known, now)))
  }

  /** `seasons_in_order`. */
  method SeasonsInOrder(catalog: seq<CatalogEpisode>, seasons: seq<int>, episodes: seq<Episode>, now: int)
    returns (split: SeasonSplit)
    ensures split == Split(catalog, seasons, episodes, now)
  {
    hide Held, Aired, Known, Split;
    var known := Known(episodes);
    split := SeasonSplit([], [], []);
    SplitOfNone(catalog, episodes, now);
    for i := 0 to |seasons|
      invariant split == Split(catalog, seasons[..i], episodes, now)
    {
      assert seasons[..i + 1][..i] == seasons[..i];
      SplitStep(catalog, seasons[..i + 1], episodes, now);
      var season := seasons[i];
      if Held(catalog, season, known) {
        split := split.(kept := split.kept + [season]);
      } else if Aired(catalog, season, now) {
        split := split.(leftOut := split.leftOut + [season]);
      } else {
        split := split.(unlisted := split.unlisted + [season]);
      }
    }
    assert seasons[..|seasons|] == seasons;
  }

  /** The three parts together are exactly the request, each in the request's order. */
  lemma {:induction false} SplitIsWhole(catalog: seq<CatalogEpisode>, seasons: seq<int>, episodes: seq<Episode>,
      now: int)
    ensures var s := Split(catalog, seasons, episodes, now);
            multiset(s.kept) + multiset(s.leftOut) + multiset(s.unlisted) == multiset(seasons)
    ensures var s := Split(catalog, seasons, episodes, now);
            InOrder(s.kept, seasons) && InOrder(s.leftOut, seasons) && InOrder(s.unlisted, seasons)
    decreases |seasons|
  {
    hide Held, Aired, Known, Select, InOrder;
    var known := Known(episodes);
    SelectInOrder(seasons, IsKept(catalog, known));
    SelectInOrder(seasons, IsLeftOut(catalog, known, now));
    SelectInOrder(seasons, IsUnlisted(catalog, known, now));
    if seasons == [] {
      SplitOfNone(catalog, episodes, now);
    } else {
      SplitIsWhole(catalog, seasons[..|seasons| - 1], episodes, now);
      SplitStep(catalog, seasons, episodes, now);
      assert seasons == seasons[..|seasons| - 1] + [seasons[|seasons| - 1]];
    }
  }

  lemma SplitOfNone(catalog: seq<CatalogEpisode>, episodes: seq<Episode>, now: int)
    ensures Split(catalog, [], episodes, now) == SeasonSplit([], [], [])
  {
  }

  /** The last season goes to exactly one part. */
  lemma SplitStep(catalog: seq<CatalogEpisode>, seasons: seq<int>, episodes: seq<Episode>, now: int)
    requires seasons != []
    ensures var last := seasons[|seasons| - 1];
            var s := Split(catalog, seasons[..|seasons| - 1], episodes, now);
            Split(catalog, seasons, episodes, now) ==
              if Held(catalog, last, Known(episodes)) then s.(kept := s.kept + [last])
              else if Aired(catalog, last, now) then s.(leftOut := s.leftOut + [last])
              else s.(unlisted := s.unlisted + [last])
  {
    hide Held, Aired, Known;
    var s := Split(catalog, seasons[..|seasons| - 1], episodes, now);
    assert s.kept + [] == s.kept && s.leftOut + [] == s.leftOut && s.unlisted + [] == s.unlisted;
  }

  /** `part` is `whole` with some elements left out. */
  predicate InOrder(part: seq<int>, whole: seq<int>)
  {
    if part == [] then true
    else if whole == [] then false
    else if part[|part| - 1] == whole[|whole| - 1] && InOrder(part[..|part| - 1], whole[..|whole| - 1]) then true
    else InOrder(part, whole[..|whole| - 1])
  }

  lemma {:induction false} SelectInOrder(seasons: seq<int>, p: int -> bool)
    ensures InOrder(Select(seasons, p), seasons)
    decreases |seasons|
  {
    if seasons != [] {
      SelectInOrder(seasons[..|seasons| - 1], p);
      var r := Select(seasons, p);
      if p(seasons[|seasons| - 1]) {
        assert r[..|r| - 1] == Select(seasons[..|seasons| - 1], p);
      } else {
        assert r == Select(seasons[..|seasons| - 1], p);
      }
    }
  }

  lemma {:induction false} SelectMembers(seasons: seq<int>, p: int -> bool)
    ensures forall s :: s in Select(seasons, p) <==> s in seasons && p(s)
    decreases |seasons|
  {
    if seasons != [] {
      SelectMembers(seasons[..|seasons| - 1], p);
      assert seasons == seasons[..|seasons| - 1] + [seasons[|seasons| - 1]];
    }
  }

  /** Sonarr has an episode of a positive TVDB id that the catalog places in the season. */
  ghost predicate HasOneOf(catalog: seq<CatalogEpisode>, episodes: seq<Episode>, season: int)
  {
    exists c, e :: c in catalog && e in episodes && c.season == season && e.tvdbId == Some(c.tvdbId) && c.tvdbId > 0
  }

  /** The catalog dates an episode of the season at or before `now`. */
  ghost predicate DatedBy(catalog: seq<CatalogEpisode>, season: int, now: int)
  {
    exists c :: c in catalog && c.season == season && c.airDate.Some?
                && Clock.ParseDateMillis(c.airDate.value).Some? && Clock.ParseDateMillis(c.airDate.value).value <= now
  }

  /** Where a requested season goes, by the catalog's dates and ids. */
  lemma SplitMembers(catalog: seq<CatalogEpisode>, seasons: seq<int>, episodes: seq<Episode>, now: int, s: int)
    requires s in seasons
    ensures var split := Split(catalog, seasons, episodes, now);
            (s in split.kept <==> HasOneOf(catalog, episodes, s))
            && (s in split.leftOut <==> !HasOneOf(catalog, episodes, s) && DatedBy(catalog, s, now))
            && (s in split.unlisted <==> !HasOneOf(catalog, episodes, s) && !DatedBy(catalog, s, now))
  {
    hide Clock.ParseDateMillis;
    var known := Known(episodes);
    SelectMembers(seasons, IsKept(catalog, known));
    SelectMembers(seasons, IsLeftOut(catalog, known, now));
    SelectMembers(seasons, IsUnlisted(catalog, known, now));
    HeldIs(catalog, episodes, s);
    AiredIs(catalog, s, now);
  }

  lemma HeldIs(catalog: seq<CatalogEpisode>, episodes: seq<Episode>, s: int)
    ensures Held(catalog, s, Known(episodes)) <==> HasOneOf(catalog, episodes, s)
  {
    if Held(catalog, s, Known(episodes)) {
      var i :| 0 <= i < |catalog| && catalog[i].season == s && catalog[i].tvdbId in Known(episodes);
      var e :| e in episodes && TvdbOf(e).Some? && TvdbOf(e).value == catalog[i].tvdbId;
      assert catalog[i] in catalog && e.tvdbId == Some(catalog[i].tvdbId);
    }
    if c, e :| c in catalog && e in episodes && c.season == s && e.tvdbId == Some(c.tvdbId) && c.tvdbId > 0 {
      assert TvdbOf(e) == Some(c.tvdbId);
      assert c.tvdbId in Known(episodes);
    }
  }

  lemma AiredIs(catalog: seq<CatalogEpisode>, s: int, now: int)
    ensures Aired(catalog, s, now) <==> DatedBy(catalog, s, now)
  {
    hide Clock.ParseDateMillis;
    if Aired(catalog, s, now) {
      var i :| 0 <= i < |catalog| && catalog[i].season == s && HasAired(catalog[i], now);
      assert catalog[i] in catalog;
    }
  }

  /** More Sonarr episodes only move seasons into kept, a later time only moves unlisted ones to left out. */
  lemma SplitMoves(catalog: seq<CatalogEpisode>, seasons: seq<int>, episodes: seq<Episode>, more: seq<Episode>,
                   now: int, later: int, s: int)
    requires Known(episodes) <= Known(more) && now <= later
    ensures var a, b := Split(catalog, seasons, episodes, now), Split(catalog, seasons, more, now);
            (s in a.kept ==> s in b.kept) && (s in b.leftOut ==> s in a.leftOut)
              && (s in b.unlisted ==> s in a.unlisted)
    ensures var a, c := Split(catalog, seasons, episodes, now), Split(catalog, seasons, episodes, later);
            a.kept == c.kept && (s in a.leftOut ==> s in c.leftOut) && (s in c.unlisted ==> s in a.unlisted)
  {
    hide Known, HasAired, Held, Aired;
    var known, wider := Known(episodes), Known(more);
    HeldWider(catalog, s, known, wider);
    AiredLater(catalog, s, now, later);
    SelectMembers(seasons, IsKept(catalog, known));
    SelectMembers(seasons, IsKept(catalog, wider));
    SelectMembers(seasons, IsLeftOut(catalog, known, now));
    SelectMembers(seasons, IsLeftOut(catalog, wider, now));
    SelectMembers(seasons, IsLeftOut(catalog, known, later));
    SelectMembers(seasons, IsUnlisted(catalog, known, now));
    SelectMembers(seasons, IsUnlisted(catalog, wider, now));
    SelectMembers(seasons, IsUnlisted(catalog, known, later));
  }

  lemma HeldWider(catalog: seq<CatalogEpisode>, s: int, known: set<int>, wider: set<int>)
    requires known <= wider
    ensures Held(catalog, s, known) ==> Held(catalog, s, wider)
  {
  }

  lemma AiredLater(catalog: seq<CatalogEpisode>, s: int, now: int, later: int)
    requires now <= later
    ensures Aired(catalog, s, now) ==> Aired(catalog, s, later)
  {
  }

  // ------------------------------------------------------------ counting seasons

  /** `by_tvdb`: the last episode of an id wins. */
  function ByTvdb(episodes: seq<Episode>): map<int, Episode>
  {
    if episodes == [] then map[]
    else
      var head := ByTvdb(episodes[..|episodes| - 1]);
      var e := episodes[|episodes| - 1];
      if TvdbOf(e).Some? then head[TvdbOf(e).value := e] else head
  }

  lemma {:induction false} ByTvdbKeys(episodes: seq<Episode>)
    ensures ByTvdb(episodes).Keys == Known(episodes)
    ensures forall t :: t in ByTvdb(episodes) ==>
      ByTvdb(episodes)[t] in episodes && TvdbOf(ByTvdb(episodes)[t]) == Some(t)
    decreases |episodes|
  {
    if episodes != [] {
      var head, e := episodes[..|episodes| - 1], episodes[|episodes| - 1];
      ByTvdbKeys(head);
      assert episodes == head + [e];
      assert Known(episodes) == Known(head) + (if TvdbOf(e).Some? then {TvdbOf(e).value} else {}) by {
        forall t ensures t in Known(episodes) <==> t in Known(head) || TvdbOf(e) == Some(t) {
          if TvdbOf(e) == Some(t) { assert e in episodes; }
          if t in Known(episodes) {
            var x :| x in episodes && TvdbOf(x) == Some(t);
            assert x in head || x == e;
          }
        }
      }
    }
  }

  /** Of several episodes with one TVDB id the index has the last. */
  lemma {:induction false} LastWins(episodes: seq<Episode>, i: nat, t: int)
    requires i < |episodes| && episodes[i].tvdbId == Some(t) && t > 0
    requires forall j :: i < j < |episodes| ==> episodes[j].tvdbId != Some(t)
    ensures t in ByTvdb(episodes) && ByTvdb(episodes)[t] == episodes[i]
    decreases |episodes|
  {
    if i < |episodes| - 1 { LastWins(episodes[..|episodes| - 1], i, t); }
  }

  /** Sonarr's episodes of an aired season, in the catalog's order. */
  function Matched(catalog: seq<CatalogEpisode>, season: int, sonarr: map<int, Episode>): seq<Episode>
  {
    if catalog == [] then []
    else
      var last := catalog[|catalog| - 1];
      Matched(catalog[..|catalog| - 1], season, sonarr)
      + if last.season == season && last.tvdbId in sonarr then [sonarr[last.tvdbId]] else []
  }

  function Files(episodes: seq<Episode>): nat
  {
    if episodes == [] then 0
    else Files(episodes[..|episodes| - 1]) + if episodes[|episodes| - 1].hasFile then 1 else 0
  }

  /** One season as `aired_seasons` reports it. */
  datatype SeasonRow = SeasonRow(number: int, monitored: bool, files: nat, total: nat)

  function RowOf(catalog: seq<CatalogEpisode>, number: int, sonarr: map<int, Episode>): SeasonRow
  {
    var matched := Matched(catalog, number, sonarr);
    SeasonRow(number, exists i :: 0 <= i < |matched| && matched[i].monitored, Files(matched), |matched|)
  }

  /** A season's row, entry by entry of the catalog: each one of it that Sonarr has counts once, with its file. */
  lemma RowByEntry(catalog: seq<CatalogEpisode>, c: CatalogEpisode, number: int, sonarr: map<int, Episode>)
    ensures RowOf([], number, sonarr) == SeasonRow(number, false, 0, 0)
    ensures var row := RowOf(catalog, number, sonarr);
            RowOf(catalog + [c], number, sonarr) ==
              if c.season == number && c.tvdbId in sonarr then
                var e := sonarr[c.tvdbId];
                SeasonRow(number, row.monitored || e.monitored, row.files + (if e.hasFile then 1 else 0), row.total + 1)
              else row
  {
    assert (catalog + [c])[..|catalog|] == catalog;
    var matched, more := Matched(catalog, number, sonarr), Matched(catalog + [c], number, sonarr);
    if c.season == number && c.tvdbId in sonarr {
      assert more == matched + [sonarr[c.tvdbId]] && more[..|matched|] == matched;
      if exists i :: 0 <= i < |matched| && matched[i].monitored {
        var i :| 0 <= i < |matched| && matched[i].monitored;
        assert more[i].monitored;
      }
      if sonarr[c.tvdbId].monitored { assert more[|matched|].monitored; }
    } else {
      assert more == matched;
    }
  }

  /** The seasons of the catalog in the order they first appear. */
  function Numbers(catalog: seq<CatalogEpisode>): (r: seq<int>)
    ensures forall i, j :: 0 <= i < j < |r| ==> r[i] != r[j]
  {
    if catalog == [] then []
    else
      var head := Numbers(catalog[..|catalog| - 1]);
      var s := catalog[|catalog| - 1].season;
      if s in head then head else head + [s]
  }

  lemma {:induction false} NumbersOfCatalog(catalog: seq<CatalogEpisode>)
    ensures forall s :: s in Numbers(catalog) <==> exists i :: 0 <= i < |catalog| && catalog[i].season == s
    decreases |catalog|
  {
    if catalog != [] {
      var head, last := catalog[..|catalog| - 1], catalog[|catalog| - 1].season;
      NumbersOfCatalog(head);
      forall s ensures s in Numbers(catalog) <==> exists i :: 0 <= i < |catalog| && catalog[i].season == s {
        assert forall i :: 0 <= i < |head| ==> head[i] == catalog[i];
        if s == last { assert catalog[|catalog| - 1].season == s; }
        if exists i :: 0 <= i < |catalog| && catalog[i].season == s {
          var i :| 0 <= i < |catalog| && catalog[i].season == s;
          if i < |head| { assert head[i].season == s; }
        }
      }
    }
  }

  /** `aired_seasons`: a row for every season of the catalog, once each. */
  method AiredSeasons(catalog: seq<CatalogEpisode>, episodes: seq<Episode>) returns (rows: seq<SeasonRow>)
    ensures |rows| == |Numbers(catalog)|
    ensures forall i :: 0 <= i < |rows| ==>
      rows[i] == RowOf(catalog, Numbers(catalog)[i], ByTvdb(episodes)) && rows[i].files <= rows[i].total
  {
    hide ByTvdb, RowOf;
    var sonarr := ByTvdb(episodes);
    var numbers: seq<int> := [];
    for i := 0 to |catalog|
      invariant numbers == Numbers(catalog[..i])
    {
      assert catalog[..i + 1][..i] == catalog[..i];
      if catalog[i].season !in numbers { numbers := numbers + [catalog[i].season]; }
    }
    assert catalog[..|catalog|] == catalog;
    rows := [];
    for i := 0 to |numbers|
      invariant |rows| == i
      invariant forall j :: 0 <= j < i ==>
        rows[j] == RowOf(catalog, numbers[j], sonarr) && rows[j].files <= rows[j].total
    {
      RowWithin(catalog, numbers[i], sonarr);
      rows := rows + [RowOf(catalog, numbers[i], sonarr)];
    }
  }

  lemma {:induction false} MatchedWhenHeld(catalog: seq<CatalogEpisode>, season: int, sonarr: map<int, Episode>)
    ensures |Matched(catalog, season, sonarr)| > 0 <==> Held(catalog, season, sonarr.Keys)
    decreases |catalog|
  {
    if catalog != [] {
      var head, last := catalog[..|catalog| - 1], catalog[|catalog| - 1];
      MatchedWhenHeld(head, season, sonarr);
      assert forall i :: 0 <= i < |head| ==> head[i] == catalog[i];
      if Held(catalog, season, sonarr.Keys) {
        var i :| 0 <= i < |catalog| && catalog[i].season == season && catalog[i].tvdbId in sonarr.Keys;
        if i < |head| { assert head[i].season == season && head[i].tvdbId in sonarr.Keys; }
      }
      if last.season == season && last.tvdbId in sonarr { assert catalog[|catalog| - 1].tvdbId in sonarr.Keys; }
      if Held(head, season, sonarr.Keys) {
        var i :| 0 <= i < |head| && head[i].season == season && head[i].tvdbId in sonarr.Keys;
        assert catalog[i].season == season;
      }
    }
  }

  lemma RowWithin(catalog: seq<CatalogEpisode>, number: int, sonarr: map<int, Episode>)
    ensures RowOf(catalog, number, sonarr).files <= RowOf(catalog, number, sonarr).total
  {
    hide Matched;
    FilesWithin(Matched(catalog, number, sonarr));
  }

  lemma {:induction false} FilesWithin(episodes: seq<Episode>)
    ensures Files(episodes) <= |episodes|
    decreases |episodes|
  {
    if episodes != [] { FilesWithin(episodes[..|episodes| - 1]); }
  }

  /** A catalogued requested season is kept exactly when `aired_seasons` counts an episode for it. */
  lemma KeptWhenCounted(catalog: seq<CatalogEpisode>, seasons: seq<int>, episodes: seq<Episode>, now: int, season: int)
    requires season in seasons
    ensures season in Split(catalog, seasons, episodes, now).kept
        <==> RowOf(catalog, season, ByTvdb(episodes)).total > 0
    ensures RowOf(catalog, season, ByTvdb(episodes)).total > 0 ==> season in Numbers(catalog)
  {
    SelectMembers(seasons, IsKept(catalog, Known(episodes)));
    ByTvdbKeys(episodes);
    MatchedWhenHeld(catalog, season, ByTvdb(episodes));
    NumbersOfCatalog(catalog);
  }

  function Totals(catalog: seq<CatalogEpisode>, numbers: seq<int>, sonarr: map<int, Episode>): nat
  {
    if numbers == [] then 0
    else Totals(catalog, numbers[..|numbers| - 1], sonarr) + RowOf(catalog, numbers[|numbers| - 1], sonarr).total
  }

  /** How many catalog entries Sonarr lists. */
  function Listed(catalog: seq<CatalogEpisode>, known: set<int>): nat
  {
    if catalog == [] then 0
    else Listed(catalog[..|catalog| - 1], known) + if catalog[|catalog| - 1].tvdbId in known then 1 else 0
  }

  /** The totals of all seasons sum to the catalog entries Sonarr lists: each is counted in one season. */
  lemma TotalsSum(catalog: seq<CatalogEpisode>, episodes: seq<Episode>)
    ensures Totals(catalog, Numbers(catalog), ByTvdb(episodes)) == Listed(catalog, Known(episodes))
  {
    ByTvdbKeys(episodes);
    NumbersOfCatalog(catalog);
    TotalsOver(catalog, Numbers(catalog), ByTvdb(episodes));
  }

  lemma {:induction false} TotalsOver(catalog: seq<CatalogEpisode>, numbers: seq<int>, sonarr: map<int, Episode>)
    requires forall i, j :: 0 <= i < j < |numbers| ==> numbers[i] != numbers[j]
    requires forall i :: 0 <= i < |catalog| ==> catalog[i].season in numbers
    ensures Totals(catalog, numbers, sonarr) == Listed(catalog, sonarr.Keys)
    decreases |catalog|
  {
    if catalog == [] {
      TotalsOfNone(numbers, sonarr);
    } else {
      var head, last := catalog[..|catalog| - 1], catalog[|catalog| - 1];
      TotalsOver(head, numbers, sonarr);
      OneMore(catalog, numbers, sonarr);
    }
  }

  lemma {:induction false} TotalsOfNone(numbers: seq<int>, sonarr: map<int, Episode>)
    ensures Totals([], numbers, sonarr) == 0
    decreases |numbers|
  {
    if numbers != [] { TotalsOfNone(numbers[..|numbers| - 1], sonarr); }
  }

  /** A catalog entry adds one to the total of its season alone, when Sonarr lists it. */
  lemma {:induction false} OneMore(catalog: seq<CatalogEpisode>, numbers: seq<int>, sonarr: map<int, Episode>)
    requires catalog != [] && forall i, j :: 0 <= i < j < |numbers| ==> numbers[i] != numbers[j]
    ensures var last := catalog[|catalog| - 1];
            Totals(catalog, numbers, sonarr) == Totals(catalog[..|catalog| - 1], numbers, sonarr)
              + if last.season in numbers && last.tvdbId in sonarr then 1 else 0
    decreases |numbers|
  {
    if numbers != [] {
      var init := numbers[..|numbers| - 1];
      OneMore(catalog, init, sonarr);
      assert numbers == init + [numbers[|numbers| - 1]];
    }
  }

  // ----------------------------------------------------- monitoring the seasons

  /** `season_episodes`: the TVDB ids of the episodes of aired seasons, in catalog order. */
  function SeasonEpisodes(catalog: seq<CatalogEpisode>, seasons: seq<int>): seq<int>
  {
    if catalog == [] then []
    else
      var last := catalog[|catalog| - 1];
      SeasonEpisodes(catalog[..|catalog| - 1], seasons) + if last.season in seasons then [last.tvdbId] else []
  }

  lemma {:induction false} SeasonEpisodesOf(catalog: seq<CatalogEpisode>, seasons: seq<int>)
    ensures forall t :: t in SeasonEpisodes(catalog, seasons) <==>
      exists i :: 0 <= i < |catalog| && catalog[i].season in seasons && catalog[i].tvdbId == t
    decreases |catalog|
  {
    if catalog != [] {
      var head, last := catalog[..|catalog| - 1], catalog[|catalog| - 1];
      SeasonEpisodesOf(head, seasons);
      forall t ensures t in SeasonEpisodes(catalog, seasons) <==>
        exists i :: 0 <= i < |catalog| && catalog[i].season in seasons && catalog[i].tvdbId == t
      {
        assert forall i :: 0 <= i < |head| ==> head[i] == catalog[i];
        if last.season in seasons && last.tvdbId == t { assert catalog[|catalog| - 1].tvdbId == t; }
        if exists i :: 0 <= i < |catalog| && catalog[i].season in seasons && catalog[i].tvdbId == t {
          var i :| 0 <= i < |catalog| && catalog[i].season in seasons && catalog[i].tvdbId == t;
          if i < |head| { assert head[i].tvdbId == t; }
        }
      }
    }
  }

  datatype Monitoring = Failed | Done(leftOut: seq<int>, ids: seq<int>)

  /** The ids of the wanted episodes Sonarr lists and doesn't monitor yet, in the catalog's order. */
  function ToMonitor(wanted: seq<int>, found: map<int, Episode>): seq<int>
  {
    if wanted == [] then []
    else
      var t := wanted[|wanted| - 1];
      ToMonitor(wanted[..|wanted| - 1], found) + if t in found && !found[t].monitored then [found[t].id] else []
  }

  lemma {:induction false} ToMonitorMembers(wanted: seq<int>, found: map<int, Episode>, x: int)
    ensures x in ToMonitor(wanted, found)
       <==> exists t :: t in wanted && t in found && !found[t].monitored && found[t].id == x
    decreases |wanted|
  {
    if wanted != [] {
      assert wanted == wanted[..|wanted| - 1] + [wanted[|wanted| - 1]];
      ToMonitorMembers(wanted[..|wanted| - 1], found, x);
    }
  }

  /**
   * `monitor_aired_seasons` with TVDB's and Sonarr's answers: it fails when Sonarr lists no episodes or the
   * order leaves every requested season out; else it asks for the unmonitored episodes of the kept seasons, and
   * returns the seasons left out.
   */
  method MonitorAiredSeasons(catalog: seq<CatalogEpisode>, episodes: seq<Episode>, seasons: seq<int>, now: int)
    returns (r: Monitoring)
    ensures var split := Split(catalog, seasons, episodes, now);
            r.Failed? <==> episodes == [] || (split.kept == [] && split.unlisted == [])
    ensures r.Done? ==> r.leftOut == Split(catalog, seasons, episodes, now).leftOut
    ensures r.Done? ==>
      r.ids == ToMonitor(SeasonEpisodes(catalog, Split(catalog, seasons, episodes, now).kept), ByTvdb(episodes))
  {
    hide Split, ByTvdb, SeasonEpisodes;
    if episodes == [] { return Failed; }
    var split := SeasonsInOrder(catalog, seasons, episodes, now);
    if split.kept == [] && split.unlisted == [] { return Failed; }
    var wanted := SeasonEpisodes(catalog, split.kept);
    var found := ByTvdb(episodes);
    var ids: seq<int> := [];
    for k := 0 to |wanted|
      invariant ids == ToMonitor(wanted[..k], found)
    {
      assert wanted[..k + 1][..k] == wanted[..k];
      var t := wanted[k];
      if t in found && !found[t].monitored { ids := ids + [found[t].id]; }
    }
    assert wanted[..|wanted|] == wanted;
    return Done(split.leftOut, ids);
  }

  /** `x` is the id of an unmonitored episode that the catalog places in one of the seasons. */
  predicate AskedFor(catalog: seq<CatalogEpisode>, seasons: seq<int>, found: map<int, Episode>, x: int)
  {
    exists i :: 0 <= i < |catalog| && catalog[i].season in seasons && catalog[i].tvdbId in found
                && !found[catalog[i].tvdbId].monitored && found[catalog[i].tvdbId].id == x
  }

  /**
   * What is asked for is exactly the unmonitored episodes Sonarr lists that the aired catalog places in a
   * requested season: no listed episode of one is overlooked, though only kept seasons are looked at.
   */
  lemma MonitorsRequested(catalog: seq<CatalogEpisode>, episodes: seq<Episode>, seasons: seq<int>, now: int, x: int)
    ensures x in ToMonitor(SeasonEpisodes(catalog, Split(catalog, seasons, episodes, now).kept), ByTvdb(episodes))
            <==> AskedFor(catalog, seasons, ByTvdb(episodes), x)
  {
    hide Known, ByTvdb, Aired, HasAired, Held, SeasonEpisodes, ToMonitor;
    var found, kept := ByTvdb(episodes), Split(catalog, seasons, episodes, now).kept;
    ByTvdbKeys(episodes);
    ToMonitorMembers(SeasonEpisodes(catalog, kept), found, x);
    SeasonEpisodesOf(catalog, kept);
    SelectMembers(seasons, IsKept(catalog, Known(episodes)));
    forall i | 0 <= i < |catalog| && catalog[i].season in seasons && catalog[i].tvdbId in found
      ensures catalog[i].tvdbId in SeasonEpisodes(catalog, kept)
    {
      WantedOf(catalog, seasons, episodes, now, i);
    }
  }

  /** A listed catalog entry of a requested season is wanted: its season is kept. */
  lemma WantedOf(catalog: seq<CatalogEpisode>, seasons: seq<int>, episodes: seq<Episode>, now: int, i: nat)
    requires i < |catalog| && catalog[i].season in seasons && catalog[i].tvdbId in Known(episodes)
    ensures catalog[i].tvdbId in SeasonEpisodes(catalog, Split(catalog, seasons, episodes, now).kept)
  {
    hide Known, Aired, HasAired;
    SelectMembers(seasons, IsKept(catalog, Known(episodes)));
    assert Held(catalog, catalog[i].season, Known(episodes));
    SeasonEpisodesOf(catalog, Split(catalog, seasons, episodes, now).kept);
  }

  // ------------------------------------------------------- resolving episode ids

  /** Every wanted id is among the episodes. */
  predicate Resolved(wanted: seq<int>, all: seq<Episode>)
  {
    forall w :: w in wanted ==> exists e :: e in all && e.tvdbId == Some(w)
  }

  function Wanted(wanted: seq<int>, all: seq<Episode>): seq<Episode>
  {
    if all == [] then []
    else
      var e := all[|all| - 1];
      Wanted(wanted, all[..|all| - 1]) + if e.tvdbId.Some? && e.tvdbId.value in wanted then [e] else []
  }

  /**
   * The retry loop of `apply_episode_selection`: `lists(n)` is what Sonarr lists at attempt `n`. It takes the first
   * attempt that has every wanted episode, or lists any in another order, and fails exactly when there are attempts
   * and none of them does.
   */
  method ResolveEpisodes(wanted: seq<int>, lists: nat -> seq<Episode>, attempts: nat, otherOrder: bool)
    returns (r: Option<seq<Episode>>, fetched: nat)
    ensures fetched <= attempts
         && forall n :: 1 <= n < fetched ==> !Resolved(wanted, lists(n)) && !(otherOrder && lists(n) != [])
    ensures r.None? <==> attempts >= 1
                         && forall n :: 1 <= n <= attempts ==>
                              !Resolved(wanted, lists(n)) && !(otherOrder && lists(n) != [])
    ensures r.Some? && attempts >= 1 ==>
      1 <= fetched && (Resolved(wanted, lists(fetched)) || (otherOrder && lists(fetched) != []))
      && r.value == Wanted(wanted, lists(fetched))
    ensures r.Some? && attempts == 0 ==> r.value == []
  {
    var episodes: seq<Episode> := [];
    fetched := 0;
    for attempt := 1 to attempts + 1
      invariant fetched == attempt - 1 && (attempts == 0 || attempt <= attempts) && (attempt == 1 ==> episodes == [])
      invariant forall n :: 1 <= n < attempt ==> !Resolved(wanted, lists(n)) && !(otherOrder && lists(n) != [])
    {
      var all := lists(attempt);
      fetched := attempt;
      episodes := Wanted(wanted, all);
      var unresolved := Unresolved(wanted, episodes);
      UnresolvedNone(wanted, all);
      if unresolved == [] { return Some(episodes), fetched; }
      if otherOrder && all != [] { return Some(episodes), fetched; }
      if attempt == attempts { return None, fetched; }
    }
    return Some(episodes), fetched;
  }

  function Unresolved(wanted: seq<int>, episodes: seq<Episode>): seq<int>
  {
    if wanted == [] then []
    else
      var w := wanted[|wanted| - 1];
      Unresolved(wanted[..|wanted| - 1], episodes)
      + if exists i :: 0 <= i < |episodes| && episodes[i].tvdbId == Some(w) then [] else [w]
  }

  lemma {:induction false} WantedMembers(wanted: seq<int>, all: seq<Episode>)
    ensures forall e :: e in Wanted(wanted, all) <==> e in all && e.tvdbId.Some? && e.tvdbId.value in wanted
    decreases |all|
  {
    if all != [] {
      WantedMembers(wanted, all[..|all| - 1]);
      assert all == all[..|all| - 1] + [all[|all| - 1]];
    }
  }

  /** The wanted episodes keep Sonarr's order. */
  lemma {:induction false} WantedInOrder(wanted: seq<int>, a: seq<Episode>, b: seq<Episode>)
    ensures Wanted(wanted, a + b) == Wanted(wanted, a) + Wanted(wanted, b)
    decreases |b|
  {
    if b == [] {
      assert a + b == a && Wanted(wanted, a) + [] == Wanted(wanted, a);
    } else {
      WantedInOrder(wanted, a, b[..|b| - 1]);
      assert (a + b)[..|a + b| - 1] == a + b[..|b| - 1];
    }
  }

  lemma {:induction false} UnresolvedEmpty(wanted: seq<int>, episodes: seq<Episode>)
    ensures Unresolved(wanted, episodes) == [] <==>
      forall w :: w in wanted ==> exists i :: 0 <= i < |episodes| && episodes[i].tvdbId == Some(w)
    decreases |wanted|
  {
    if wanted != [] {
      var init, w := wanted[..|wanted| - 1], wanted[|wanted| - 1];
      UnresolvedEmpty(init, episodes);
      assert wanted == init + [w];
      assert w in wanted;
    }
  }

  lemma UnresolvedNone(wanted: seq<int>, all: seq<Episode>)
    ensures Unresolved(wanted, Wanted(wanted, all)) == [] <==> Resolved(wanted, all)
  {
    var episodes := Wanted(wanted, all);
    WantedMembers(wanted, all);
    UnresolvedEmpty(wanted, episodes);
    forall w | w in wanted
      ensures (exists i :: 0 <= i < |episodes| && episodes[i].tvdbId == Some(w)) 
        <==> exists e :: e in all && e.tvdbId == Some(w)
    {
      if exists e :: e in all && e.tvdbId == Some(w) {
        var e :| e in all && e.tvdbId == Some(w);
        assert e in episodes;
        var i :| 0 <= i < |episodes| && episodes[i] == e;
        assert episodes[i].tvdbId == Some(w);
      }
      if exists i :: 0 <= i < |episodes| && episodes[i].tvdbId == Some(w) {
        var i :| 0 <= i < |episodes| && episodes[i].tvdbId == Some(w);
        assert episodes[i] in episodes;
      }
    }
  }
}
