/** The callers of one `MaxRps`, in any order (`MaxRps::wait` of `backend-rs/src/concurrency.rs`, lines 99 to 107). */
module RpsCallers {
  import opened Text
  import opened Rps

  /**
   * A caller is about to ask, asleep until `till` after a refusal, or its request started, as the `slot`-th one.
   * Starts are counted by the limiter's history: `seen` is its length at the last refusal.
   */
  datatype State = Asking | Asleep(till: int, seen: nat) | Started(at: int, slot: nat)

  /** A caller; `arrived` is the number of starts before it came, `sleeps` how often it was refused. */
  datatype Caller = Caller(arrived: nat, sleeps: nat, state: State)

  datatype World = World(now: int, history: seq<int>, callers: seq<Caller>)

  /** Time passes, a caller comes, or one of them asks under the lock; a sleep can last longer than asked. */
  datatype Step = Pass(time: nat) | Arrive | Ask(i: nat)

  predicate Awake(c: Caller, now: int)
  {
    match c.state
    case Asking => true
    case Asleep(till, _) => till <= now
    case Started(_, _) => false
  }

  /** The end of the wait `take` answers at `now`: when the oldest recent start is a second old. */
  function FreeAt(history: seq<int>, now: int): int
    requires Recent(history, now) > 0
  {
    history[|history| - Recent(history, now)] + SECOND
  }

  /** A caller after it asked at `now`. */
  function Answered(maxRps: nat, history: seq<int>, now: int, c: Caller): Caller
  {
    if maxRps == 0 || Recent(history, now) < maxRps then c.(state := Started(now, |history|))
    else c.(sleeps := c.sleeps + 1, state := Asleep(FreeAt(history, now), |history|))
  }

  function Next(maxRps: nat, w: World, s: Step): World
  {
    match s
    case Pass(time) => w.(now := w.now + time)
    case Arrive => w.(callers := w.callers + [Caller(|w.history|, 0, Asking)])
    case Ask(i) =>
      if i >= |w.callers| || !Awake(w.callers[i], w.now) then w
      else
        var c := Answered(maxRps, w.history, w.now, w.callers[i]);
        World(w.now, if maxRps > 0 && c.state.Started? then w.history + [w.now] else w.history, w.callers[i := c])
  }

  function Initial(start: int): World { World(start, [], []) }

  function After(maxRps: nat, start: int, run: seq<Step>): World
  {
    if run == [] then Initial(start)
    else Next(maxRps, After(maxRps, start, run[..|run| - 1]), run[|run| - 1])
  }

  // ------------------------------------------------------- the limiter's rounds

  /** One caller's turn at the limiter is the state machine's step. */
  method Turn(limiter: MaxRps, now: int, taken: nat, callers: seq<Caller>, i: nat)
    returns (taken': nat, callers': seq<Caller>)
    requires limiter.Valid() && (limiter.window.latest <= now || limiter.window.history == [])
    requires taken == |limiter.window.history|
    modifies limiter.window
    ensures limiter.Valid() && (limiter.window.latest <= now || limiter.window.history == [])
    ensures taken' == |limiter.window.history|
    ensures World(now, limiter.window.history, callers')
         == Next(limiter.maxRps, World(now, old(limiter.window.history), callers), Ask(i))
  {
    hide Recent, Paced, Next, Sorted;
    taken', callers' := taken, callers;
    ghost var w := World(now, limiter.window.history, callers);
    AskedNext(limiter.maxRps, w, i);
    if i >= |callers| || !Awake(callers[i], now) { return; }
    var wait := limiter.Try(now);
    if wait.None? {
      callers' := callers[i := callers[i].(state := Started(now, taken))];
      if limiter.maxRps > 0 { taken' := taken + 1; }
    } else {
      callers' := callers[i := callers[i].(sleeps := callers[i].sleeps + 1, state := Asleep(now + wait.value, taken))];
    }
  }

  /** What `Ask` does, by the window's answer. */
  lemma AskedNext(maxRps: nat, w: World, i: nat)
    ensures var w' := Next(maxRps, w, Ask(i));
            if i >= |w.callers| || !Awake(w.callers[i], w.now) then w' == w
            else
              var c, recent := w.callers[i], Recent(w.history, w.now);
              if maxRps == 0 || recent < maxRps then
                w' == World(w.now, if maxRps > 0 then w.history + [w.now] else w.history,
                            w.callers[i := c.(state := Started(w.now, |w.history|))])
              else
                recent <= |w.history|
                && w' == World(w.now, w.history, w.callers[i := c.(sleeps := c.sleeps + 1,
                     state := Asleep(w.history[|w.history| - recent] + SECOND, |w.history|))])
  {
    hide CountIn;
  }

  /** The callers of a new limiter, in any order of turns: what they and its history become is the run's. */
  method Rounds(maxRps: nat, start: int, run: seq<Step>) returns (limiter: MaxRps, now: int, callers: seq<Caller>)
    ensures fresh(limiter) && fresh(limiter.window) && limiter.Valid() && limiter.maxRps == maxRps
    ensures World(now, limiter.window.history, callers) == After(maxRps, start, run)
  {
    hide Next, Paced, Recent;
    limiter := new MaxRps(maxRps);
    now, callers := start, [];
    var taken := 0;
    assert run[..0] == [];
    for k := 0 to |run|
      invariant limiter.Valid() && (limiter.window.latest <= now || limiter.window.history == [])
      invariant limiter.maxRps == maxRps && fresh(limiter) && fresh(limiter.window)
      invariant taken == |limiter.window.history|
      invariant World(now, limiter.window.history, callers) == After(maxRps, start, run[..k])
    {
      assert run[..k + 1][..k] == run[..k];
      Effects(maxRps, World(now, limiter.window.history, callers), run[k]);
      match run[k] {
        case Pass(time) => now := now + time;
        case Arrive => callers := callers + [Caller(taken, 0, Asking)];
        case Ask(i) => taken, callers := Turn(limiter, now, taken, callers, i);
      }
    }
    assert run[..|run|] == run;
  }

  lemma Effects(maxRps: nat, w: World, s: Step)
    ensures s.Pass? ==> Next(maxRps, w, s) == World(w.now + s.time, w.history, w.callers)
    ensures s.Arrive? ==> Next(maxRps, w, s) == World(w.now, w.history, w.callers + [Caller(|w.history|, 0, Asking)])
  {
  }

  /**
   * A turn exactly: a caller about to ask, or whose sleep is over, starts when the last second has room or there is no
   * limit; else it sleeps until the oldest start of that second is a second old. Any other turn changes nothing.
   */
  lemma TurnExactly(maxRps: nat, w: World, i: nat)
    requires i < |w.callers|
    ensures var c, w' := w.callers[i], Next(maxRps, w, Ask(i));
            var recent := Recent(w.history, w.now);
            if c.state.Started? || (c.state.Asleep? && w.now < c.state.till) then w' == w
            else if maxRps == 0 || recent < maxRps then
              w'.callers == w.callers[i := c.(state := Started(w.now, |w.history|))]
              && w'.history == (if maxRps == 0 then w.history else w.history + [w.now])
            else
              w'.callers[i].state == Asleep(w.history[|w.history| - recent] + SECOND, |w.history|)
              && w'.callers[i].sleeps == c.sleeps + 1 && w'.history == w.history
              && w'.callers == w.callers[i := w'.callers[i]]
  {
    hide CountIn;
  }

  // ------------------------------------------------------------------ theorems

  /** How many callers started in `[from, to)`. */
  function StartedIn(callers: seq<Caller>, from: int, to: int): nat
  {
    if callers == [] then 0
    else
      var c := callers[|callers| - 1];
      StartedIn(callers[..|callers| - 1], from, to) + if c.state.Started? && from <= c.state.at < to then 1 else 0
  }

  /** From `till` on these starts leave a slot free. */
  ghost predicate FreeFrom(history: seq<int>, till: int, maxRps: nat)
  {
    forall later :: till <= later ==> Recent(history, later) < maxRps
  }

  /** Each refusal but the first came after another start since the one before it. */
  ghost predicate ValidCaller(maxRps: nat, history: seq<int>, c: Caller)
  {
    c.arrived <= |history|
    && match c.state
       case Asking => c.sleeps == 0
       case Asleep(till, seen) =>
         maxRps >= 1 && c.arrived <= seen <= |history| && 1 <= c.sleeps <= 1 + seen - c.arrived
         && FreeFrom(history[..seen], till, maxRps)
       case Started(at, slot) =>
         c.arrived <= slot && c.sleeps <= 1 + slot - c.arrived && (maxRps == 0 ==> c.sleeps == 0)
         && (maxRps >= 1 ==> slot < |history| && history[slot] == at)
  }

  ghost predicate Valid(maxRps: nat, w: World)
  {
    (if maxRps >= 1 then Paced(w.history, maxRps) else w.history == [])
    && (forall i :: 0 <= i < |w.history| ==> w.history[i] <= w.now)
    && (forall i :: 0 <= i < |w.callers| ==> ValidCaller(maxRps, w.history, w.callers[i]))
    && (maxRps >= 1 ==> forall from, to :: StartedIn(w.callers, from, to) == CountIn(w.history, from, to))
  }

  lemma {:induction false} StartedUpdate(callers: seq<Caller>, i: nat, c: Caller, from: int, to: int)
    requires i < |callers| && !callers[i].state.Started?
    ensures StartedIn(callers[i := c], from, to)
         == StartedIn(callers, from, to) + if c.state.Started? && from <= c.state.at < to then 1 else 0
    decreases |callers|
  {
    var n := |callers| - 1;
    if i < n {
      StartedUpdate(callers[..n], i, c, from, to);
      assert callers[i := c][..n] == callers[..n][i := c];
    } else {
      assert callers[i := c][..n] == callers[..n];
    }
  }

  /** One more start leaves every caller's account as it is. */
  lemma StillValid(maxRps: nat, history: seq<int>, now: int, c: Caller)
    requires ValidCaller(maxRps, history, c)
    ensures ValidCaller(maxRps, history + [now], c)
  {
    hide FreeFrom;
    if c.state.Asleep? { assert (history + [now])[..c.state.seen] == history[..c.state.seen]; }
  }

  /**
   * A caller whose sleep is over is refused again only when another one started since it was refused, and every
   * refusal comes with `maxRps` starts in the last second.
   */
  lemma RefusedAgain(maxRps: nat, w: World, i: nat)
    requires Valid(maxRps, w) && i < |w.callers| && Awake(w.callers[i], w.now)
    requires Answered(maxRps, w.history, w.now, w.callers[i]).state.Asleep?
    ensures maxRps >= 1 && Recent(w.history, w.now) == maxRps
    ensures w.callers[i].state.Asleep? ==> w.callers[i].state.seen < |w.history|
    ensures w.now < FreeAt(w.history, w.now) <= w.now + SECOND && FreeFrom(w.history, FreeAt(w.history, w.now), maxRps)
  {
    hide Recent, Paced, CountIn, Sorted;
    var c := w.callers[i];
    assert ValidCaller(maxRps, w.history, c);
    assert w.history[..|w.history|] == w.history;
    RecentAtLimit(w.history, maxRps, w.now);
    var till := FreeAt(w.history, w.now);
    forall later | till <= later ensures Recent(w.history, later) < maxRps {
      WaitFreesASlot(w.history, maxRps, w.now, later);
    }
  }

  /** The recent starts are a last part of the history, of `maxRps` at most. */
  lemma RecentAtLimit(history: seq<int>, maxRps: nat, now: int)
    requires maxRps >= 1 && Paced(history, maxRps) && forall i :: 0 <= i < |history| ==> history[i] <= now
    requires Recent(history, now) >= maxRps
    ensures Recent(history, now) == maxRps <= |history| && now < FreeAt(history, now) <= now + SECOND
  {
    hide CountIn;
    NoBurst(history, maxRps, now - SECOND + 1);
    var first := |history| - Recent(history, now);
    if now - history[first] >= SECOND { StillRecent(history, first + 1, now); }
  }

  lemma AskedCaller(maxRps: nat, w: World, i: nat)
    requires Valid(maxRps, w) && i < |w.callers| && Awake(w.callers[i], w.now)
    ensures var c := Answered(maxRps, w.history, w.now, w.callers[i]);
            ValidCaller(maxRps, Next(maxRps, w, Ask(i)).history, c)
  {
    hide Recent, Paced, FreeFrom, FreeAt;
    var c := Answered(maxRps, w.history, w.now, w.callers[i]);
    assert ValidCaller(maxRps, w.history, w.callers[i]);
    if c.state.Asleep? {
      RefusedAgain(maxRps, w, i);
      assert w.history[..|w.history|] == w.history;
    }
  }

  lemma AskedCounts(maxRps: nat, w: World, i: nat, from: int, to: int)
    requires Valid(maxRps, w) && maxRps >= 1
    ensures var w' := Next(maxRps, w, Ask(i)); StartedIn(w'.callers, from, to) == CountIn(w'.history, from, to)
  {
    hide Paced, ValidCaller, Recent;
    if i < |w.callers| && Awake(w.callers[i], w.now) {
      var c := Answered(maxRps, w.history, w.now, w.callers[i]);
      StartedUpdate(w.callers, i, c, from, to);
      assert (w.history + [w.now])[..|w.history|] == w.history;
    }
  }

  lemma ArrivedCounts(callers: seq<Caller>, c: Caller, from: int, to: int)
    requires c.state.Asking?
    ensures StartedIn(callers + [c], from, to) == StartedIn(callers, from, to)
  {
    assert (callers + [c])[..|callers|] == callers;
  }

  lemma StepValid(maxRps: nat, w: World, s: Step)
    requires Valid(maxRps, w)
    ensures Valid(maxRps, Next(maxRps, w, s))
  {
    hide Recent, Paced, StartedIn, CountIn, ValidCaller, Answered;
    var w' := Next(maxRps, w, s);
    match s {
      case Pass(_) =>
      case Arrive =>
        assert ValidCaller(maxRps, w.history, Caller(|w.history|, 0, Asking)) by { NewCaller(maxRps, w.history); }
        forall from, to ensures StartedIn(w'.callers, from, to) == StartedIn(w.callers, from, to) {
          ArrivedCounts(w.callers, Caller(|w.history|, 0, Asking), from, to);
        }
      case Ask(i) =>
        if i < |w.callers| && Awake(w.callers[i], w.now) {
          AskValid(maxRps, w, i);
        }
    }
  }

  lemma NewCaller(maxRps: nat, history: seq<int>)
    ensures ValidCaller(maxRps, history, Caller(|history|, 0, Asking))
  {
  }

  lemma AskValid(maxRps: nat, w: World, i: nat)
    requires Valid(maxRps, w) && i < |w.callers| && Awake(w.callers[i], w.now)
    ensures Valid(maxRps, Next(maxRps, w, Ask(i)))
  {
    hide Recent, Paced, StartedIn, CountIn, ValidCaller, FreeAt;
    var w' := Next(maxRps, w, Ask(i));
    AskedCaller(maxRps, w, i);
    if w'.history != w.history { GrantKeepsPace(w.history, maxRps, w.now); }
    forall k | 0 <= k < |w'.callers| ensures ValidCaller(maxRps, w'.history, w'.callers[k]) {
      if k != i && w'.history != w.history { StillValid(maxRps, w.history, w.now, w.callers[k]); }
    }
    if maxRps >= 1 {
      forall from, to ensures StartedIn(w'.callers, from, to) == CountIn(w'.history, from, to) {
        AskedCounts(maxRps, w, i, from, to);
      }
    }
  }

  lemma {:induction false} RunValid(maxRps: nat, start: int, run: seq<Step>)
    ensures Valid(maxRps, After(maxRps, start, run))
    decreases |run|
  {
    hide Next;
    if run != [] {
      RunValid(maxRps, start, run[..|run| - 1]);
      StepValid(maxRps, After(maxRps, start, run[..|run| - 1]), run[|run| - 1]);
    }
  }

  /** Over every interleaving, no half-open second holds more than `maxRps` starts of all callers together. */
  lemma NoBurstOfCallers(maxRps: nat, start: int, run: seq<Step>, from: int)
    requires maxRps >= 1
    ensures StartedIn(After(maxRps, start, run).callers, from, from + SECOND) <= maxRps
  {
    hide Paced, After, StartedIn, CountIn;
    RunValid(maxRps, start, run);
    NoBurst(After(maxRps, start, run).history, maxRps, from);
  }

  /** How many starts a caller let pass before its own. */
  function Passed(w: World, c: Caller): int
  {
    (if c.state.Started? then c.state.slot else |w.history|) - c.arrived
  }

  /**
   * Over every interleaving, a caller sleeps at most once more than other callers started while it waited, and never
   * without a limit; so one that nobody passes sleeps once at most.
   */
  lemma SleepsAreEarned(maxRps: nat, start: int, run: seq<Step>, i: nat)
    requires i < |After(maxRps, start, run).callers|
    ensures var w := After(maxRps, start, run);
            var c := w.callers[i];
            c.sleeps <= (if maxRps == 0 then 0 else 1 + Passed(w, c))
            && Passed(w, c) == if c.state.Started? then c.state.slot - c.arrived else |w.history| - c.arrived
  {
    hide Paced, After, StartedIn, FreeFrom;
    RunValid(maxRps, start, run);
    assert ValidCaller(maxRps, After(maxRps, start, run).history, After(maxRps, start, run).callers[i]);
  }
}
