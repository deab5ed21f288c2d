/** The sliding-window request limiter (`backend-rs/src/concurrency.rs`); times in nanoseconds. */
module Rps {
  import opened Text

  const SECOND := 1_000_000_000

  /** How many of the grants lie in `[from, to)`. */
  function CountIn(grants: seq<int>, from: int, to: int): (n: nat)
    ensures n <= |grants|
  {
    if grants == [] then 0
    else
      var last := grants[|grants| - 1];
      CountIn(grants[..|grants| - 1], from, to) + if from <= last < to then 1 else 0
  }

  /** The grants of the last second before `now`: those less than a second old. */
  function Recent(grants: seq<int>, now: int): nat { CountIn(grants, now - SECOND + 1, now + 1) }

  predicate Sorted(times: seq<int>) { forall i, j :: 0 <= i < j < |times| ==> times[i] <= times[j] }

  /** Each grant came while fewer than `maxRps` grants of the whole history before it were recent. */
  predicate Paced(grants: seq<int>, maxRps: nat)
  {
    Sorted(grants) && forall i :: 0 <= i < |grants| ==> Recent(grants[..i], grants[i]) < maxRps
  }

  /** `RpsWindow`: the start times of the last second. */
  class RpsWindow {
    var times: seq<int>
    /** Every grant ever, of which the window has dropped the first `dropped`; the latest time seen. */
    ghost var history: seq<int>
    ghost var dropped: nat
    ghost var latest: int

    ghost predicate Valid()
      reads this
    {
      Sorted(history) && dropped <= |history| && times == history[dropped..]
      && (forall i :: 0 <= i < dropped ==> latest - history[i] >= SECOND)
      && forall i :: 0 <= i < |history| ==> history[i] <= latest
    }

    constructor ()
      ensures Valid() && history == []
    {
      times, history, dropped, latest := [], [], 0, 0;
    }

    /**
     * `take`: a slot at `now`, or how long until one frees up. The clock never runs backwards.
     * A limit of 0 still lets requests through an empty window, unrecorded.
     */
    method Take(maxRps: nat, now: int) returns (wait: Option<int>)
      requires Valid() && (latest <= now || history == [])
      modifies this
      ensures Valid() && latest == now
      ensures var recent := Recent(old(history), now);
              (wait.None? <==> recent < maxRps || recent == 0)
              && history == (if wait.None? && maxRps > 0 then old(history) + [now] else old(history))
              && (wait.Some? ==> recent <= |history| && wait.value == history[|history| - recent] + SECOND - now
                                 && 0 < wait.value <= SECOND)
    {
      hide Recent, Sorted;
      latest := now;
      while times != [] && now - times[0] >= SECOND
        invariant Valid() && history == old(history) && latest == now
        decreases |times|
      {
        times := times[1..];
        dropped := dropped + 1;
      }
      RecentIsWindow(history, dropped, now);
      if |times| < maxRps {
        SortedAppend(history, now);
        times := times + [now];
        history := history + [now];
        return None;
      }
      if times == [] { return None; }
      return Some(times[0] + SECOND - now);
    }
  }

  lemma SortedAppend(times: seq<int>, t: int)
    requires Sorted(times) && forall i :: 0 <= i < |times| ==> times[i] <= t
    ensures Sorted(times + [t])
  {
  }

  /** The part of a sorted history less than a second old is counted by its length. */
  lemma RecentIsWindow(history: seq<int>, dropped: nat, now: int)
    requires Sorted(history) && dropped <= |history|
    requires forall i :: 0 <= i < dropped ==> now - history[i] >= SECOND
    requires dropped < |history| ==> now - history[dropped] < SECOND
    requires forall i :: 0 <= i < |history| ==> history[i] <= now
    ensures Recent(history, now) == |history| - dropped
  {
    if |history| > 0 {
      var init := history[..|history| - 1];
      RecentIsWindow(init, if dropped < |history| then dropped else dropped - 1, now);
    }
  }

  // ------------------------------------------------------------------ theorems

  /** A grant by `take` keeps the history paced. */
  lemma GrantKeepsPace(history: seq<int>, maxRps: nat, now: int)
    requires Paced(history, maxRps) && Recent(history, now) < maxRps
    requires forall i :: 0 <= i < |history| ==> history[i] <= now
    ensures Paced(history + [now], maxRps)
  {
    var h := history + [now];
    forall i | 0 <= i < |h| ensures Recent(h[..i], h[i]) < maxRps {
      assert h[..i] == history[..i];
      assert history[..|history|] == history;
    }
  }

  lemma PacedInit(grants: seq<int>, maxRps: nat)
    requires grants != [] && Paced(grants, maxRps)
    ensures var n := |grants| - 1;
            Paced(grants[..n], maxRps) && Recent(grants[..n], grants[n]) < maxRps
            && forall i :: 0 <= i < n ==> grants[i] <= grants[n]
  {
    hide Recent;
    var init := grants[..|grants| - 1];
    assert forall i :: 0 <= i < |init| ==> init[..i] == grants[..i];
  }

  /** No half-open one-second interval holds more than `maxRps` grants. */
  lemma {:induction false} NoBurst(grants: seq<int>, maxRps: nat, from: int)
    requires Paced(grants, maxRps)
    ensures CountIn(grants, from, from + SECOND) <= maxRps
    decreases |grants|
  {
    hide Paced, Sorted;
    if grants != [] {
      var n := |grants| - 1;
      var init, last := grants[..n], grants[n];
      PacedInit(grants, maxRps);
      NoBurst(init, maxRps, from);
      if from <= last < from + SECOND {
        WiderInterval(init, from, from + SECOND, last - SECOND + 1, last + 1);
      }
    }
  }

  /** An interval that holds every grant of another one counts at least as many. */
  lemma {:induction false} WiderInterval(grants: seq<int>, from: int, to: int, from': int, to': int)
    requires forall i :: 0 <= i < |grants| && from <= grants[i] < to ==> from' <= grants[i] < to'
    ensures CountIn(grants, from, to) <= CountIn(grants, from', to')
    decreases |grants|
  {
    if grants != [] {
      WiderInterval(grants[..|grants| - 1], from, to, from', to');
    }
  }

  /**
   * After a refusal at `now`, a take once the returned wait has passed is granted if nobody took a slot
   * meanwhile: the oldest recent grant is no longer recent.
   */
  lemma WaitFreesASlot(history: seq<int>, maxRps: nat, now: int, later: int)
    requires maxRps >= 1 && Paced(history, maxRps) && forall i :: 0 <= i < |history| ==> history[i] <= now
    requires var recent := Recent(history, now);
             recent >= maxRps && recent <= |history| && later - now >= history[|history| - recent] + SECOND - now
    ensures Recent(history, later) < maxRps
  {
    var recent := Recent(history, now);
    NoBurst(history, maxRps, now - SECOND + 1);
    var first := |history| - recent;
    StillRecent(history, first + 1, later);
  }

  lemma {:induction false} StillRecent(history: seq<int>, aged: nat, later: int)
    requires aged <= |history| && forall i :: 0 <= i < aged ==> later - history[i] >= SECOND
    ensures Recent(history, later) <= |history| - aged
    decreases |history|
  {
    if history != [] {
      var n := |history| - 1;
      StillRecent(history[..n], if aged <= n then aged else n, later);
    }
  }

  /** `MaxRps`: one limiter with a fixed limit. */
  class MaxRps {
    const maxRps: nat
    const window: RpsWindow

    ghost predicate Valid()
      reads this, window
    {
      window.Valid() && (if maxRps >= 1 then Paced(window.history, maxRps) else window.history == [])
    }

    constructor (maxRps: nat)
      ensures Valid() && fresh(window) && this.maxRps == maxRps && window.history == []
    {
      this.maxRps := maxRps;
      window := new RpsWindow();
    }

    /** One round of `wait`'s loop: the history stays paced, so `NoBurst` bounds every one-second interval. */
    method Try(now: int) returns (wait: Option<int>)
      requires Valid() && (window.latest <= now || window.history == [])
      modifies window
      ensures Valid() && window.latest == now
      ensures wait.None? <==> maxRps == 0 || Recent(old(window.history), now) < maxRps
      ensures window.history == if maxRps >= 1 && wait.None? then old(window.history) + [now] else old(window.history)
      ensures wait.Some? ==>
        var recent := Recent(window.history, now);
        recent <= |window.history| && wait.value == window.history[|window.history| - recent] + SECOND - now
        && 0 < wait.value <= SECOND
    {
      ghost var before := window.history;
      wait := window.Take(maxRps, now);
      if maxRps >= 1 && wait.None? { GrantKeepsPace(before, maxRps, now); }
    }

    /**
     * `wait` while nobody else takes a slot: at most one sleep, which lasts `late` longer than asked, and then
     * the request starts. A limit of 0 holds nothing back.
     */
    method Wait(now: int, late: nat) returns (at: int)
      requires Valid() && (window.latest <= now || window.history == [])
      modifies window
      ensures Valid() && window.latest == at
      ensures at == now || now + late < at <= now + SECOND + late
      ensures at == now <==> maxRps == 0 || Recent(old(window.history), now) < maxRps
      ensures window.history == if maxRps >= 1 then old(window.history) + [at] else old(window.history)
    {
      hide Recent, Paced;
      at := now;
      var waited := false;
      while true
        invariant Valid() && window.history == old(window.history) && (window.latest <= at || window.history == [])
        invariant waited ==>
          maxRps >= 1 && Recent(window.history, at) < maxRps && now + late < at <= now + SECOND + late
        invariant waited ==> Recent(window.history, now) >= maxRps
        invariant !waited ==> at == now
        decreases if waited then 0 else 1
      {
        var wait := Try(at);
        if wait.None? { return; }
        WaitFreesASlot(window.history, maxRps, at, at + wait.value + late);
        at := at + wait.value + late;
        waited := true;
      }
    }
  }
}
