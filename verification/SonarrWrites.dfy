/** The two write protocols that update a series in Sonarr (`backend-rs/src/arr.rs`). */
module SonarrWrites {
  import opened Text

  /** A season of a series: its number (none when Sonarr sends none), its flag, and the rest of the object. */
  datatype Season = Season(number: Option<int>, monitored: bool, rest: int)

  datatype Series = Series(id: int, monitored: bool, tags: Option<seq<int>>, seasons: Option<seq<Season>>,
                           addOptions: Option<int>, rest: int)

  datatype Api = V3 | V5

  /** What Sonarr is asked: the whole series back, the series editor, or one season. */
  datatype Write = Whole(body: Series) | Editor(tags: seq<int>) | MonitorSeason(number: int)

  function Tags(s: Series): seq<int> { if s.tags.Some? then s.tags.value else [] }

  function Seasons(s: Series): seq<Season> { if s.seasons.Some? then s.seasons.value else [] }

  predicate Requested(n: Option<int>, seasons: seq<int>) { n.Some? && n.value in seasons }

  // ---------------------------------------------------------------- the code

  /** The tags of `more` that are missing, once each, behind `tags`. */
  function AddMissing(tags: seq<int>, more: seq<int>): seq<int>
  {
    if more == [] then tags
    else
      var head := AddMissing(tags, more[..|more| - 1]);
      var t := more[|more| - 1];
      if t in head then head else head + [t]
  }

  /** `season_list` (`buildSeasonList`): the requested seasons monitored. */
  function SeasonList(seasons: seq<int>, existing: Option<seq<Season>>): seq<Season>
  {
    match existing
    case None => seq(|seasons|, i requires 0 <= i < |seasons| => Season(Some(seasons[i]), true, 0))
    case Some(list) => Monitored(list, seasons)
  }

  function Monitored(list: seq<Season>, numbers: seq<int>): (r: seq<Season>)
    ensures |r| == |list|
    ensures forall i :: 0 <= i < |list| ==>
      r[i] == list[i].(monitored := list[i].monitored || Requested(list[i].number, numbers))
  {
    seq(|list|, i requires 0 <= i < |list| =>
      if Requested(list[i].number, numbers) then list[i].(monitored := true) else list[i])
  }

  /** `patched_series`: the series as the request leaves it. */
  method PatchedSeries(existing: Series, tags: seq<int>, seasons: seq<int>) returns (body: Series)
    ensures body == Patched(existing, tags, seasons)
  {
    var merged := Tags(existing);
    for i := 0 to |tags|
      invariant merged == AddMissing(Tags(existing), tags[..i])
    {
      assert tags[..i + 1][..i] == tags[..i];
      if tags[i] !in merged { merged := merged + [tags[i]]; }
    }
    assert tags[..|tags|] == tags;
    body := existing.(monitored := true, tags := Some(merged),
                      seasons := Some(SeasonList(seasons, existing.seasons)), addOptions := None);
  }

  function Patched(existing: Series, tags: seq<int>, seasons: seq<int>): Series
  {
    existing.(monitored := true, tags := Some(AddMissing(Tags(existing), tags)),
              seasons := Some(SeasonList(seasons, existing.seasons)), addOptions := None)
  }

  /** The tags to add: those the series lacks, once each. */
  function Added(current: seq<int>, tags: seq<int>): seq<int>
  {
    if tags == [] then []
    else
      var head := Added(current, tags[..|tags| - 1]);
      var t := tags[|tags| - 1];
      if t in current || t in head then head else head + [t]
  }

  /** The requested seasons that aren't monitored yet. */
  function Unmonitored(list: seq<Season>, seasons: seq<int>): seq<int>
  {
    if list == [] then []
    else
      var head := Unmonitored(list[..|list| - 1], seasons);
      var s := list[|list| - 1];
      if Requested(s.number, seasons) && !s.monitored then head + [s.number.value] else head
  }

  function SeasonWrites(numbers: seq<int>): (r: seq<Write>)
    ensures |r| == |numbers| && forall i :: 0 <= i < |numbers| ==> r[i] == MonitorSeason(numbers[i])
  {
    seq(|numbers|, i requires 0 <= i < |numbers| => MonitorSeason(numbers[i]))
  }

  function Writes5(existing: Series, tags: seq<int>, seasons: seq<int>): seq<Write>
  {
    var added := Added(Tags(existing), tags);
    (if !existing.monitored || added != [] then [Editor(added)] else [])
    + SeasonWrites(Unmonitored(Seasons(existing), seasons))
  }

  /** `series_writes`: the writes, in order, that leave `existing` as `patched`. */
  method SeriesWrites(api: Api, existing: Series, patched: Series, tags: seq<int>, seasons: seq<int>)
    returns (writes: seq<Write>)
    ensures writes == if api == V3 then [Whole(patched)] else Writes5(existing, tags, seasons)
  {
    hide Added;
    if api == V3 { return [Whole(patched)]; }
    var added := TagsToAdd(Tags(existing), tags);
    writes := [];
    if !existing.monitored || added != [] { writes := writes + [Editor(added)]; }
    ghost var editor := writes;
    var list := Seasons(existing);
    for i := 0 to |list|
      invariant writes == editor + SeasonWrites(Unmonitored(list[..i], seasons))
    {
      assert list[..i + 1][..i] == list[..i];
      if list[i].number.Some? && list[i].number.value in seasons && !list[i].monitored {
        writes := writes + [MonitorSeason(list[i].number.value)];
      }
    }
    assert list[..|list|] == list;
  }

  /** The loop over the tags in `series_writes`. */
  method TagsToAdd(current: seq<int>, tags: seq<int>) returns (added: seq<int>)
    ensures added == Added(current, tags)
  {
    added := [];
    for i := 0 to |tags|
      invariant added == Added(current, tags[..i])
    {
      assert tags[..i + 1][..i] == tags[..i];
      if tags[i] !in current && tags[i] !in added { added := added + [tags[i]]; }
    }
    assert tags[..|tags|] == tags;
  }

  // ------------------------------------------------------------- what Sonarr does

  /**
   * A write on the series Sonarr holds: the whole body replaces it; the editor sets the flag and adds the
   * tags it lacks; a season write monitors the seasons of that number.
   */
  function Apply(w: Write, s: Series): Series
  {
    match w
    case Whole(body) => body
    case Editor(tags) => s.(monitored := true, tags := Some(AddMissing(Tags(s), tags)))
    case MonitorSeason(n) =>
      s.(seasons := if s.seasons.Some? then Some(Monitored(s.seasons.value, [n])) else None)
  }

  function ApplyAll(writes: seq<Write>, s: Series): Series
  {
    if writes == [] then s else Apply(writes[|writes| - 1], ApplyAll(writes[..|writes| - 1], s))
  }

  // ------------------------------------------------------------------ theorems

  /** Season writes in order monitor the seasons of those numbers and change nothing else. */
  lemma {:induction false} ApplySeasonWrites(numbers: seq<int>, s: Series)
    ensures ApplyAll(SeasonWrites(numbers), s)
         == s.(seasons := if s.seasons.Some? then Some(Monitored(s.seasons.value, numbers)) else None)
    decreases |numbers|
  {
    var writes := SeasonWrites(numbers);
    if numbers == [] {
      if s.seasons.Some? { assert Monitored(s.seasons.value, []) == s.seasons.value; }
    } else {
      var init, n := numbers[..|numbers| - 1], numbers[|numbers| - 1];
      ApplySeasonWrites(init, s);
      assert writes[..|writes| - 1] == SeasonWrites(init);
      if s.seasons.Some? {
        var list := s.seasons.value;
        assert numbers == init + [n];
        assert Monitored(Monitored(list, init), [n]) == Monitored(list, numbers);
      }
    }
  }

  lemma {:induction false} ApplyAppend(a: seq<Write>, b: seq<Write>, s: Series)
    ensures ApplyAll(a + b, s) == ApplyAll(b, ApplyAll(a, s))
    decreases |b|
  {
    if b == [] {
      assert a + b == a;
    } else {
      assert (a + b)[..|a + b| - 1] == a + b[..|b| - 1];
      ApplyAppend(a, b[..|b| - 1], s);
    }
  }

  /** The five-version writes on any series: the editor's change, then the seasons'. */
  lemma ApplyWrites5(existing: Series, tags: seq<int>, seasons: seq<int>, s: Series)
    ensures var added := Added(Tags(existing), tags);
            var edited := if !existing.monitored || added != [] then Apply(Editor(added), s) else s;
            var numbers := Unmonitored(Seasons(existing), seasons);
            ApplyAll(Writes5(existing, tags, seasons), s)
            == edited.(seasons := if s.seasons.Some? then Some(Monitored(s.seasons.value, numbers)) else None)
  {
    var added := Added(Tags(existing), tags);
    var editor := if !existing.monitored || added != [] then [Editor(added)] else [];
    var numbers := Unmonitored(Seasons(existing), seasons);
    ApplyAppend(editor, SeasonWrites(numbers), s);
    var edited := ApplyAll(editor, s);
    if editor != [] {
      assert editor[..0] == [];
      assert edited == Apply(Editor(added), ApplyAll([], s));
    }
    ApplySeasonWrites(numbers, edited);
  }

  lemma {:induction false} UnmonitoredNumbers(list: seq<Season>, seasons: seq<int>)
    ensures forall n :: n in Unmonitored(list, seasons) <==>
      n in seasons && exists i :: 0 <= i < |list| && list[i].number == Some(n) && !list[i].monitored
    decreases |list|
  {
    if list != [] {
      var init := list[..|list| - 1];
      UnmonitoredNumbers(init, seasons);
      forall n ensures n in Unmonitored(list, seasons) <==>
        n in seasons && exists i :: 0 <= i < |list| && list[i].number == Some(n) && !list[i].monitored
      {
        assert forall i :: 0 <= i < |init| ==> init[i] == list[i];
        if exists i :: 0 <= i < |list| && list[i].number == Some(n) && !list[i].monitored {
          var i :| 0 <= i < |list| && list[i].number == Some(n) && !list[i].monitored;
          if i < |init| { assert init[i].number == Some(n); }
        }
      }
    }
  }

  /** Monitoring the requested seasons that aren't monitored is monitoring the requested seasons. */
  lemma MonitorTheRest(list: seq<Season>, seasons: seq<int>)
    ensures Monitored(list, Unmonitored(list, seasons)) == Monitored(list, seasons)
  {
    var rest := Unmonitored(list, seasons);
    UnmonitoredNumbers(list, seasons);
    forall i | 0 <= i < |list| ensures Monitored(list, rest)[i] == Monitored(list, seasons)[i] {
      var n := list[i].number;
      if n.Some? && !list[i].monitored {
        var k := n.value;
        assert list[i].number == Some(k);
        assert k in rest <==> k in seasons;
      }
    }
  }

  lemma {:induction false} AddedTags(current: seq<int>, tags: seq<int>)
    ensures forall t :: t in Added(current, tags) <==> t in tags && t !in current
    ensures AddMissing(current, tags) == current + Added(current, tags)
    ensures AddMissing(current, Added(current, tags)) == AddMissing(current, tags)
    decreases |tags|
  {
    if tags != [] {
      var init, t := tags[..|tags| - 1], tags[|tags| - 1];
      AddedTags(current, init);
      assert tags == init + [t];
      var added := Added(current, tags);
      if added != Added(current, init) {
        assert added[..|added| - 1] == Added(current, init);
      }
    }
  }

  lemma {:induction false} MissingTags(tags: seq<int>, more: seq<int>)
    ensures tags <= AddMissing(tags, more) && forall t :: t in more ==> t in AddMissing(tags, more)
    decreases |more|
  {
    if more != [] {
      MissingTags(tags, more[..|more| - 1]);
      assert more == more[..|more| - 1] + [more[|more| - 1]];
    }
  }

  /**
   * Applied to the series they were made for, the Sonarr 5 writes leave the same flag and tags as the whole
   * body sent to older versions, and the same seasons exactly when the series has a season list.
   */
  lemma SameAsWholeBody(existing: Series, tags: seq<int>, seasons: seq<int>)
    ensures var r, whole := ApplyAll(Writes5(existing, tags, seasons), existing),
                            ApplyAll([Whole(Patched(existing, tags, seasons))], existing);
            r.monitored == whole.monitored && Tags(r) == Tags(whole)
              && (r.seasons == whole.seasons <==> existing.seasons.Some?)
  {
    ApplyWrites5(existing, tags, seasons, existing);
    AddedTags(Tags(existing), tags);
    assert [Whole(Patched(existing, tags, seasons))][..0] == [];
    if existing.seasons.Some? { MonitorTheRest(existing.seasons.value, seasons); }
  }

  /** A series without a season list: only the whole body brings the requested season. */
  lemma NoSeasonList()
    ensures var existing := Series(1, true, Some([]), None, None, 0);
            ApplyAll(Writes5(existing, [], [1]), existing).seasons
            != ApplyAll([Whole(Patched(existing, [], [1]))], existing).seasons
  {
    hide Writes5, Patched, ApplyAll;
    SameAsWholeBody(Series(1, true, Some([]), None, None, 0), [], [1]);
  }

  /**
   * Applied to a series edited meanwhile, they never drop a tag or unmonitor anything, add every tag the
   * request found missing, and monitor every season it found unmonitored.
   */
  lemma EditsSurvive(existing: Series, tags: seq<int>, seasons: seq<int>, now: Series)
    ensures var r := ApplyAll(Writes5(existing, tags, seasons), now);
            Tags(now) <= Tags(r) && (forall t :: t in tags && t !in Tags(existing) ==> t in Tags(r))
            && (now.monitored || !existing.monitored ==> r.monitored)
            && |Seasons(r)| == |Seasons(now)| && forall i :: 0 <= i < |Seasons(now)| ==>
                 Seasons(r)[i] == Seasons(now)[i].(monitored := Seasons(now)[i].monitored
                   || Requested(Seasons(now)[i].number, Unmonitored(Seasons(existing), seasons)))
  {
    ApplyWrites5(existing, tags, seasons, now);
    AddedTags(Tags(existing), tags);
    MissingTags(Tags(now), Added(Tags(existing), tags));
  }

  /** Against their own result there are no writes left. */
  lemma NoWritesLeft(existing: Series, tags: seq<int>, seasons: seq<int>)
    ensures Writes5(ApplyAll(Writes5(existing, tags, seasons), existing), tags, seasons) == []
  {
    var r := ApplyAll(Writes5(existing, tags, seasons), existing);
    ApplyWrites5(existing, tags, seasons, existing);
    AddedTags(Tags(existing), tags);
    MissingTags(Tags(existing), Added(Tags(existing), tags));
    MonitorTheRest(Seasons(existing), seasons);
    NothingAdded(Tags(r), tags);
    NothingUnmonitored(Seasons(r), seasons);
  }

  lemma {:induction false} NothingAdded(current: seq<int>, tags: seq<int>)
    requires forall t :: t in tags ==> t in current
    ensures Added(current, tags) == []
    decreases |tags|
  {
    if tags != [] {
      assert forall t :: t in tags[..|tags| - 1] ==> t in tags;
      NothingAdded(current, tags[..|tags| - 1]);
    }
  }

  lemma {:induction false} NothingUnmonitored(list: seq<Season>, seasons: seq<int>)
    requires forall i :: 0 <= i < |list| && Requested(list[i].number, seasons) ==> list[i].monitored
    ensures Unmonitored(list, seasons) == []
    decreases |list|
  {
    if list != [] { NothingUnmonitored(list[..|list| - 1], seasons); }
  }

  // ------------------------------------------- the whole body and later edits

  /** A season of the number is monitored. */
  predicate HasMonitored(list: seq<Season>, n: int)
  {
    exists i :: 0 <= i < |list| && list[i].number == Some(n) && list[i].monitored
  }

  predicate HasSeason(list: seq<Season>, n: int) { exists i :: 0 <= i < |list| && list[i].number == Some(n) }

  /** The whole body holds season `n` monitored: it was, or the request has it among the seasons the body lists. */
  predicate BodyMonitors(existing: Series, seasons: seq<int>, n: int)
  {
    HasMonitored(Seasons(existing), n) || (n in seasons && (existing.seasons.None? || HasSeason(Seasons(existing), n)))
  }

  lemma BodySeasons(existing: Series, seasons: seq<int>, n: int)
    ensures HasMonitored(SeasonList(seasons, existing.seasons), n) <==> BodyMonitors(existing, seasons, n)
  {
    var list := SeasonList(seasons, existing.seasons);
    if existing.seasons.None? {
      assert forall i :: 0 <= i < |seasons| ==> list[i].number == Some(seasons[i]) && list[i].monitored;
      if n in seasons {
        var i :| 0 <= i < |seasons| && seasons[i] == n;
        assert list[i].number == Some(n);
      }
    } else {
      var list0 := existing.seasons.value;
      assert list == Monitored(list0, seasons);
      assert forall i :: 0 <= i < |list0| ==> list[i].number == list0[i].number;
      forall i | 0 <= i < |list0| && list0[i].number == Some(n)
        ensures list[i].monitored <==> list0[i].monitored || n in seasons
      {
      }
    }
  }

  /**
   * The whole body sent to an older Sonarr replaces what was edited meanwhile. No tag is lost exactly when every
   * tag then there was read or is requested, and no season is unmonitored exactly when every season then monitored
   * was read monitored, or is a requested one the body lists.
   */
  lemma WholeBodyKeepsEdits(existing: Series, tags: seq<int>, seasons: seq<int>, now: Series)
    ensures var r := ApplyAll([Whole(Patched(existing, tags, seasons))], now);
            (forall t :: t in Tags(now) ==> t in Tags(r))
            <==> (forall t :: t in Tags(now) ==> t in Tags(existing) || t in tags)
    ensures var r := ApplyAll([Whole(Patched(existing, tags, seasons))], now);
            (forall n :: HasMonitored(Seasons(now), n) ==> HasMonitored(Seasons(r), n))
            <==> (forall n :: HasMonitored(Seasons(now), n) ==> BodyMonitors(existing, seasons, n))
    ensures ApplyAll([Whole(Patched(existing, tags, seasons))], now).monitored
  {
    hide HasMonitored, BodyMonitors, SeasonList;
    assert [Whole(Patched(existing, tags, seasons))][..0] == [];
    AddedTags(Tags(existing), tags);
    forall n ensures HasMonitored(SeasonList(seasons, existing.seasons), n) <==> BodyMonitors(existing, seasons, n) {
      BodySeasons(existing, seasons, n);
    }
  }

  /** Such edits: a tag and a season's monitoring the whole body takes back. */
  lemma WholeBodyLosesEdits() returns (existing: Series, now: Series)
    ensures var r := ApplyAll([Whole(Patched(existing, [], []))], now);
            7 in Tags(now) && 7 !in Tags(r) && HasMonitored(Seasons(now), 1) && !HasMonitored(Seasons(r), 1)
  {
    existing := Series(1, true, Some([]), Some([Season(Some(1), false, 0)]), None, 0);
    now := existing.(tags := Some([7]), seasons := Some([Season(Some(1), true, 0)]));
    assert [Whole(Patched(existing, [], []))][..0] == [];
    assert Seasons(now)[0].monitored;
  }
}
