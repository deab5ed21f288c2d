/** The gate clients share after a 429 (`RateGate` and `fetch` of `backend-rs/src/anilist.rs`); times in nanoseconds. */
module RateGate {
  import opened Text

  /** When the gate opens; none while it never closed. */
  type Until = Option<int>

  /** What a client that read `until` does at `now`: go on, sleep some time, or give up. */
  datatype Waiting = Go | Sleep(left: nat) | TooLong

  /** `wait` after the read of the gate. */
  function WaitAt(until: Until, now: int, maxWait: nat): Waiting
  {
    if until.None? || until.value < now then Go
    else if until.value - now > maxWait then TooLong
    else Sleep(until.value - now)
  }

  /** `close`: the later of the two times. */
  function Closed(until: Until, target: int): (r: Until)
    ensures r.Some? && r.value >= target && (until.Some? ==> r.value >= until.value)
    ensures r == Some(target) || r == until
  {
    if until.None? || target > until.value then Some(target) else until
  }

  /** The gate opens no earlier in `b` than in `a`. */
  predicate NoEarlier(a: Until, b: Until) { a.Some? ==> b.Some? && b.value >= a.value }

  // --------------------------------------------------------------- the clients

  /** An answer: a 429 with its `Retry-After` (none when it is no duration), or any other outcome. */
  datatype Reply = Limited(after: Option<nat>) | Other

  /**
   * Where a client stands in `fetch`: at the top of the loop, having read the gate, asleep, waiting for the
   * answer, about to close the gate, or returned.
   */
  datatype Pc =
    | Top | Read(until: Until) | Asleep(till: int) | Sent | Closing(after: Option<nat>, target: int) | Returned

  /** A client with the times of its sends, its sleep in all, and the last 429 it retries after: when and how long. */
  datatype Client = Client(pc: Pc, retried: bool, sentAt: seq<int>, slept: nat, limitedAt: int, limit: nat)

  datatype State = State(now: int, gate: Until, clients: seq<Client>)

  /** What happens outside a client in one of its steps. */
  datatype Event = Hit | Miss | Proceed | Answer(reply: Reply)

  /** One step of a client at `now` against the gate: the client and the gate after it. */
  function StepClient(c: Client, gate: Until, now: int, event: Event, maxWait: nat): (Client, Until)
  {
    match (c.pc, event)
    case (Top, Hit) => (c.(pc := Returned), gate)
    case (Top, Miss) => (c.(pc := Read(gate)), gate)
    case (Read(until), Proceed) =>
      (match WaitAt(until, now, maxWait)
       case Go => (c.(pc := Sent, sentAt := c.sentAt + [now]), gate)
       case TooLong => (c.(pc := Returned), gate)
       case Sleep(left) => (c.(pc := Asleep(now + left), slept := c.slept + left), gate))
    case (Asleep(till), Proceed) =>
      if now >= till then (c.(pc := Sent, sentAt := c.sentAt + [now]), gate) else (c, gate)
    case (Sent, Answer(Other)) => (c.(pc := Returned), gate)
    case (Sent, Answer(Limited(after))) =>
      (c.(pc := Closing(after, if after.Some? then now + after.value else now)), gate)
    case (Closing(after, target), Proceed) =>
      var gate' := if after.Some? then Closed(gate, target) else gate;
      if c.retried || after.None? || after.value > maxWait then (c.(pc := Returned), gate')
      else (c.(pc := Top, retried := true, limitedAt := target - after.value, limit := after.value), gate')
    case _ => (c, gate)
  }

  /** Time passes, or one client makes a step. */
  ghost predicate Next(s: State, t: State, maxWait: nat)
  {
    (t.now >= s.now && t.gate == s.gate && t.clients == s.clients)
    || exists i, event :: 0 <= i < |s.clients|
         && var r := StepClient(s.clients[i], s.gate, s.now, event, maxWait);
            t == State(s.now, r.1, s.clients[i := r.0])
  }

  ghost predicate Init(s: State)
  {
    s.gate.None? && forall i :: 0 <= i < |s.clients| ==> s.clients[i] == Client(Top, false, [], 0, 0, 0)
  }

  /** A run: every state follows from the one before. */
  ghost predicate Run(run: seq<State>, maxWait: nat)
  {
    run != [] && Init(run[0]) && forall i :: 0 <= i < |run| - 1 ==> Next(run[i], run[i + 1], maxWait)
  }

  // ------------------------------------------------------------- the invariant

  /** How many sends a client has made: one more once retried, one more past the wait. */
  predicate Counted(c: Client, maxWait: nat)
  {
    var rounds := if c.retried then 1 else 0;
    match c.pc
    case Top => |c.sentAt| == rounds && c.slept <= rounds * maxWait
    case Read(_) => |c.sentAt| == rounds && c.slept <= rounds * maxWait
    case Asleep(_) => |c.sentAt| == rounds && c.slept <= (rounds + 1) * maxWait
    case Sent => |c.sentAt| == rounds + 1 && c.slept <= (rounds + 1) * maxWait
    case Closing(_, _) => |c.sentAt| == rounds + 1 && c.slept <= (rounds + 1) * maxWait
    case Returned => |c.sentAt| <= rounds + 1 && c.slept <= (rounds + 1) * maxWait
  }

  /** A client that retries waits for the end of its 429's `Retry-After`. */
  predicate Patient(c: Client, gate: Until, now: int, maxWait: nat)
  {
    var free := c.limitedAt + c.limit;
    (c.retried ==> c.limit <= maxWait && |c.sentAt| >= 1 && c.sentAt[0] <= c.limitedAt
                   && gate.Some? && gate.value >= free
                   && (c.pc.Read? ==> c.pc.until.Some? && c.pc.until.value >= free)
                   && (c.pc.Asleep? ==> c.pc.till >= free)
                   && (|c.sentAt| > 1 ==> c.sentAt[1] >= free))
    && (c.pc.Closing? && c.pc.after.Some? && |c.sentAt| == 1 ==> c.sentAt[0] <= c.pc.target - c.pc.after.value)
    && forall i :: 0 <= i < |c.sentAt| ==> c.sentAt[i] <= now
  }

  ghost predicate Inv(s: State, maxWait: nat)
  {
    forall i :: 0 <= i < |s.clients| ==> Counted(s.clients[i], maxWait) && Patient(s.clients[i], s.gate, s.now, maxWait)
  }

  lemma StepKeeps(c: Client, gate: Until, now: int, event: Event, maxWait: nat)
    requires Counted(c, maxWait) && Patient(c, gate, now, maxWait)
    ensures var r := StepClient(c, gate, now, event, maxWait);
            Counted(r.0, maxWait) && Patient(r.0, r.1, now, maxWait) && NoEarlier(gate, r.1)
  {
  }

  /** Another client's step, and time, don't disturb a client. */
  lemma OthersKeep(c: Client, gate: Until, gate': Until, now: int, later: int, maxWait: nat)
    requires Patient(c, gate, now, maxWait) && NoEarlier(gate, gate') && now <= later
    ensures Patient(c, gate', later, maxWait)
  {
  }

  lemma NextKeeps(s: State, t: State, maxWait: nat)
    requires Inv(s, maxWait) && Next(s, t, maxWait)
    ensures Inv(t, maxWait) && NoEarlier(s.gate, t.gate) && s.now <= t.now && |t.clients| == |s.clients|
  {
    hide StepClient, Counted, Patient;
    if t.now >= s.now && t.gate == s.gate && t.clients == s.clients {
      forall i | 0 <= i < |t.clients| ensures Patient(t.clients[i], t.gate, t.now, maxWait) {
        OthersKeep(s.clients[i], s.gate, t.gate, s.now, t.now, maxWait);
      }
    } else {
      var i, event :| 0 <= i < |s.clients|
        && var r := StepClient(s.clients[i], s.gate, s.now, event, maxWait);
           t == State(s.now, r.1, s.clients[i := r.0]);
      StepKeeps(s.clients[i], s.gate, s.now, event, maxWait);
      forall j | 0 <= j < |t.clients|
        ensures Counted(t.clients[j], maxWait) && Patient(t.clients[j], t.gate, t.now, maxWait)
      {
        if j != i { OthersKeep(s.clients[j], s.gate, t.gate, s.now, t.now, maxWait); }
      }
    }
  }

  lemma {:induction false} RunKeeps(run: seq<State>, maxWait: nat, n: nat)
    requires Run(run, maxWait) && n < |run|
    ensures Inv(run[n], maxWait) && |run[n].clients| == |run[0].clients|
    decreases n
  {
    hide Next, Counted, Patient;
    if n == 0 {
      FreshClient(run[0].gate, run[0].now, maxWait);
    } else {
      RunKeeps(run, maxWait, n - 1);
      assert Next(run[n - 1], run[n - 1 + 1], maxWait);
      NextKeeps(run[n - 1], run[n], maxWait);
    }
  }

  lemma FreshClient(gate: Until, now: int, maxWait: nat)
    ensures var c := Client(Top, false, [], 0, 0, 0); Counted(c, maxWait) && Patient(c, gate, now, maxWait)
  {
  }

  /** Under any interleaving the gate's time never moves back. */
  lemma {:induction false} GateNeverMovesBack(run: seq<State>, maxWait: nat, i: nat, j: nat)
    requires Run(run, maxWait) && i <= j < |run|
    ensures NoEarlier(run[i].gate, run[j].gate)
    decreases j
  {
    hide Next, Inv, Init;
    if i < j {
      GateNeverMovesBack(run, maxWait, i, j - 1);
      RunKeeps(run, maxWait, j - 1);
      assert Next(run[j - 1], run[j - 1 + 1], maxWait);
      NextKeeps(run[j - 1], run[j], maxWait);
    }
  }

  /**
   * Under any interleaving a fetch sends at most twice and sleeps at most twice `maxWait`; the second send
   * comes only after a 429 to the first whose `Retry-After` fits `maxWait` and has passed.
   */
  lemma FetchIsBounded(run: seq<State>, maxWait: nat, n: nat, i: nat)
    requires Run(run, maxWait) && n < |run| && i < |run[n].clients|
    ensures var c := run[n].clients[i];
            |c.sentAt| <= 2 && c.slept <= 2 * maxWait
            && (|c.sentAt| == 2 ==>
                  c.limit <= maxWait && c.sentAt[0] <= c.limitedAt && c.limitedAt + c.limit <= c.sentAt[1])
  {
    RunKeeps(run, maxWait, n);
    assert Counted(run[n].clients[i], maxWait);
  }

  // -------------------------------------------------- sends through the gate

  predicate OpenBy(gate: Until, now: int) { gate.None? || gate.value <= now }

  /** The client holds the gate as it read it, or sleeps until that time. */
  predicate Holds(c: Client, gate: Until) { c.pc == Read(gate) || (c.pc.Asleep? && gate == Some(c.pc.till)) }

  /** Client `i` last read the gate in state `j`, and has held that reading up to state `n`. */
  ghost predicate LastRead(run: seq<State>, i: nat, j: nat, n: nat)
  {
    j < n < |run| && (forall k :: 0 <= k < |run| ==> i < |run[k].clients|)
    && run[j].clients[i].pc.Top? && run[j + 1].gate == run[j].gate
    && forall k :: j < k <= n ==> Holds(run[k].clients[i], run[j].gate)
  }

  /** A client that waits after its step held the same reading before it, or has just read the gate. */
  lemma StepKeepsReading(c: Client, gate: Until, now: int, event: Event, maxWait: nat, g: Until)
    ensures var r := StepClient(c, gate, now, event, maxWait);
            Holds(c, g) && (r.0.pc.Read? || r.0.pc.Asleep?) ==> Holds(r.0, g)
    ensures var r := StepClient(c, gate, now, event, maxWait);
            r.0.pc.Read? || r.0.pc.Asleep? ==>
              c.pc.Read? || c.pc.Asleep? || (c.pc.Top? && r.0.pc == Read(gate) && r.1 == gate)
  {
  }

  /** A client that sends held an open reading. */
  lemma StepSends(c: Client, gate: Until, now: int, event: Event, maxWait: nat, g: Until)
    ensures var r := StepClient(c, gate, now, event, maxWait);
            r.0.pc.Sent? && !c.pc.Sent? ==>
              (c.pc.Read? || c.pc.Asleep?) && (Holds(c, g) ==> OpenBy(g, now)) && r.1 == gate
  {
  }

  /** In a step, a client either stays as it is or makes the step itself. */
  lemma OwnStep(s: State, t: State, i: nat, maxWait: nat) returns (event: Event)
    requires Next(s, t, maxWait) && i < |s.clients| && i < |t.clients| && t.clients[i] != s.clients[i]
    ensures StepClient(s.clients[i], s.gate, s.now, event, maxWait) == (t.clients[i], t.gate) && t.now == s.now
  {
    hide StepClient;
    var k, e :| 0 <= k < |s.clients|
      && var r := StepClient(s.clients[k], s.gate, s.now, e, maxWait); t == State(s.now, r.1, s.clients[k := r.0]);
    event := e;
  }

  /** A client that waits has a last read. */
  lemma {:induction false} FindLastRead(run: seq<State>, maxWait: nat, i: nat, n: nat) returns (j: nat)
    requires Run(run, maxWait) && n < |run| && i < |run[n].clients|
    requires run[n].clients[i].pc.Read? || run[n].clients[i].pc.Asleep?
    ensures LastRead(run, i, j, n)
    decreases n
  {
    hide Next, Inv, StepClient, Holds;
    SameClients(run, maxWait, i, n);
    if n > 0 {
      var s, t := run[n - 1], run[n];
      assert Next(s, run[n - 1 + 1], maxWait);
      if t.clients[i] == s.clients[i] {
        j := FindLastRead(run, maxWait, i, n - 1);
      } else {
        var event := OwnStep(s, t, i, maxWait);
        StepKeepsReading(s.clients[i], s.gate, s.now, event, maxWait, s.gate);
        if s.clients[i].pc.Top? {
          j := n - 1;
          JustRead(t.clients[i], s.gate);
        } else {
          j := FindLastRead(run, maxWait, i, n - 1);
          StepKeepsReading(s.clients[i], s.gate, s.now, event, maxWait, run[j].gate);
        }
      }
    }
  }

  lemma JustRead(c: Client, gate: Until)
    requires c.pc == Read(gate)
    ensures Holds(c, gate)
  {
  }

  lemma SameClients(run: seq<State>, maxWait: nat, i: nat, n: nat)
    requires Run(run, maxWait) && n < |run| && i < |run[n].clients|
    ensures forall k :: 0 <= k < |run| ==> i < |run[k].clients|
    ensures n == 0 ==> run[n].clients[i].pc.Top?
  {
    hide Next, Inv;
    RunKeeps(run, maxWait, n);
    forall k | 0 <= k < |run| ensures i < |run[k].clients| { RunKeeps(run, maxWait, k); }
  }

  /** Another client's closing step takes the gate past `now`. */
  ghost predicate ClosesPast(run: seq<State>, k: nat, i: nat, now: int)
  {
    k + 1 < |run| && OpenBy(run[k].gate, now) && !OpenBy(run[k + 1].gate, now)
    && exists c :: 0 <= c < |run[k].clients| && c != i && run[k].clients[c].pc.Closing?
                   && c < |run[k + 1].clients| && !run[k + 1].clients[c].pc.Closing?
  }

  /** Only a client at its closing step moves the gate. */
  lemma GateMoves(s: State, t: State, maxWait: nat) returns (c: nat)
    requires Next(s, t, maxWait) && t.gate != s.gate
    ensures c < |s.clients| == |t.clients| && s.clients[c].pc.Closing? && !t.clients[c].pc.Closing?
  {
    var k, e :| 0 <= k < |s.clients|
      && var r := StepClient(s.clients[k], s.gate, s.now, e, maxWait); t == State(s.now, r.1, s.clients[k := r.0]);
    c := k;
  }

  /** Between an open reading and a closed gate lies the step that closed it. */
  lemma {:induction false} FindClosing(run: seq<State>, maxWait: nat, i: nat, j: nat, n: nat, now: int) returns (k: nat)
    requires Run(run, maxWait) && LastRead(run, i, j, n) && OpenBy(run[j].gate, now) && !OpenBy(run[n].gate, now)
    ensures j < k < n && ClosesPast(run, k, i, now)
    decreases n
  {
    hide Next, StepClient;
    if OpenBy(run[n - 1].gate, now) {
      assert n - 1 != j;
      assert Next(run[n - 1], run[n - 1 + 1], maxWait);
      var c := GateMoves(run[n - 1], run[n], maxWait);
      assert Holds(run[n - 1].clients[i], run[j].gate);
      k := n - 1;
    } else {
      k := FindClosing(run, maxWait, i, j, n - 1, now);
    }
  }

  /**
   * Whenever a step sends, the gate as its client last read it was open by then. So a send meets a closed gate
   * exactly when another client's closing step moved the gate past it after that read.
   */
  lemma SendFollowsOpenRead(run: seq<State>, maxWait: nat, n: nat, i: nat) returns (j: nat)
    requires Run(run, maxWait) && n + 1 < |run| && i < |run[n].clients| && i < |run[n + 1].clients|
    requires !run[n].clients[i].pc.Sent? && run[n + 1].clients[i].pc.Sent?
    ensures LastRead(run, i, j, n) && OpenBy(run[j].gate, run[n].now)
    ensures run[n + 1].gate == run[n].gate && run[n + 1].now == run[n].now
    ensures !OpenBy(run[n].gate, run[n].now) <==> exists k :: j < k < n && ClosesPast(run, k, i, run[n].now)
  {
    hide Next, StepClient, ClosesPast, Holds;
    assert Next(run[n], run[n + 1], maxWait);
    var event := OwnStep(run[n], run[n + 1], i, maxWait);
    StepSends(run[n].clients[i], run[n].gate, run[n].now, event, maxWait, run[n].gate);
    j := FindLastRead(run, maxWait, i, n);
    StepSends(run[n].clients[i], run[n].gate, run[n].now, event, maxWait, run[j].gate);
    var now := run[n].now;
    if !OpenBy(run[n].gate, now) {
      var k := FindClosing(run, maxWait, i, j, n, now);
    }
    forall k | j < k < n && ClosesPast(run, k, i, now) ensures !OpenBy(run[n].gate, now) {
      StaysClosed(run, maxWait, k, n, i, now);
    }
  }

  lemma StaysClosed(run: seq<State>, maxWait: nat, k: nat, n: nat, i: nat, now: int)
    requires Run(run, maxWait) && k < n < |run| && ClosesPast(run, k, i, now)
    ensures !OpenBy(run[n].gate, now)
  {
    hide Run;
    GateNeverMovesBack(run, maxWait, k + 1, n);
  }

  /** Client 0 reads the open gate; client 1 sends, gets a 429 and closes the gate; client 0 sends. */
  function ClosedGateRun(): seq<State>
  {
    var a := Client(Top, false, [], 0, 0, 0);
    var read := a.(pc := Read(None));
    var sent := a.(pc := Sent, sentAt := [0]);
    var closing := sent.(pc := Closing(Some(50), 50));
    var closed := closing.(pc := Top, retried := true, limitedAt := 0, limit := 50);
    [State(0, None, [a, a]), State(0, None, [read, a]), State(0, None, [read, read]), State(0, None, [read, sent]),
     State(0, None, [read, closing]), State(0, Some(50), [read, closed]), State(0, Some(50), [sent, closed])]
  }

  lemma ReadsAndSends()
    ensures var run := ClosedGateRun();
            Next(run[0], run[1], 100) && Next(run[1], run[2], 100) && Next(run[2], run[3], 100)
  {
    hide Next;
    var run := ClosedGateRun();
    assert [] + [0] == [0];
    StepOf(run[0], run[1], 0, Miss);
    StepOf(run[1], run[2], 1, Miss);
    StepOf(run[2], run[3], 1, Proceed);
  }

  lemma ClosesAndSends()
    ensures var run := ClosedGateRun();
            Next(run[3], run[4], 100) && Next(run[4], run[5], 100) && Next(run[5], run[6], 100)
  {
    hide Next;
    var run := ClosedGateRun();
    assert [] + [0] == [0];
    StepOf(run[3], run[4], 1, Answer(Limited(Some(50))));
    StepOf(run[4], run[5], 1, Proceed);
    StepOf(run[5], run[6], 0, Proceed);
  }

  /** Such a send: in this run a client sends while the gate is closed. */
  lemma SendsThroughAClosedGate()
    ensures var run := ClosedGateRun();
            Run(run, 100) && !run[5].clients[0].pc.Sent? && run[6].clients[0].pc.Sent?
              && !OpenBy(run[5].gate, run[5].now)
  {
    hide Next;
    ReadsAndSends();
    ClosesAndSends();
  }

  lemma StepOf(s: State, t: State, i: nat, event: Event)
    requires i < |s.clients| && t.now == s.now
    requires StepClient(s.clients[i], s.gate, s.now, event, 100).1 == t.gate
    requires t.clients == s.clients[i := StepClient(s.clients[i], s.gate, s.now, event, 100).0]
    ensures Next(s, t, 100)
  {
  }

  // ------------------------------------------------------------------ the code

  /** `RateGate`. */
  class RateGate {
    var until: Until
    const maxWait: nat

    constructor (maxWait: nat)
      ensures until == None && this.maxWait == maxWait
    {
      until, this.maxWait := None, maxWait;
    }

    /** `wait`: the read of the gate, and what follows from it at `now`. */
    method Wait(now: int) returns (r: Waiting)
      ensures r == WaitAt(until, now, maxWait)
      ensures r.Go? <==> until.None? || until.value < now
      ensures r.TooLong? <==> until.Some? && until.value > now + maxWait
      ensures r.Sleep? ==> r.left <= maxWait && until == Some(now + r.left)
    {
      if until.None? || until.value < now { return Go; }
      var left := until.value - now;
      if left > maxWait { return TooLong; }
      return Sleep(left);
    }

    /** `close`: the gate's time only moves on; no duration, no change. */
    method Close(after: Option<nat>, now: int)
      modifies this
      ensures until == if after.Some? then Closed(old(until), now + after.value) else old(until)
      ensures NoEarlier(old(until), until)
    {
      if after.None? { return; }
      var target := now + after.value;
      if until.None? || target > until.value { until := Some(target); }
    }

    /** `retries`. */
    predicate Retries(after: Option<nat>) { after.Some? && after.value <= maxWait }
  }

  /** What a round of `fetch` meets: the cache, other clients' closings, the clock at the wait, the reply and when. */
  datatype Round = Round(hit: bool, others: Option<int>, now: int, reply: Reply, repliedAt: int)

  /** The gate once the others moved it. */
  function Met(until: Until, round: Round): Until
  {
    if round.others.Some? then Closed(until, round.others.value) else until
  }

  /** The sleep before it. */
  function Left(until: Until, now: int): nat { if until.Some? && until.value > now then until.value - now else 0 }

  /** The reply is a 429 that is waited out. */
  predicate ShortLimit(reply: Reply, maxWait: nat)
  {
    reply.Limited? && reply.after.Some? && reply.after.value <= maxWait
  }

  /** The gate after the reply. */
  function Replied(until: Until, round: Round): Until
  {
    if round.reply.Limited? && round.reply.after.Some? then Closed(until, round.repliedAt + round.reply.after.value)
    else until
  }

  /** A client's steps up to its send, nobody else in between: it reads the gate, and sleeps when it has to. */
  function Waited(c: Client, gate: Until, now: int, maxWait: nat): (Client, Until)
  {
    var read := StepClient(c, gate, now, Miss, maxWait);
    var waited := StepClient(read.0, read.1, now, Proceed, maxWait);
    if waited.0.pc.Asleep? then StepClient(waited.0, waited.1, waited.0.pc.till, Proceed, maxWait) else waited
  }

  /** And from its send on. */
  function AnsweredBy(c: Client, gate: Until, reply: Reply, at: int, maxWait: nat): (Client, Until)
  {
    var answered := StepClient(c, gate, at, Answer(reply), maxWait);
    StepClient(answered.0, answered.1, at, Proceed, maxWait)
  }

  /** One round of a client, once the others moved the gate. */
  function RoundOf(c: Client, until: Until, round: Round, maxWait: nat): (Client, Until)
  {
    if round.hit then StepClient(c, until, round.now, Hit, maxWait)
    else
      var waited := Waited(c, Met(until, round), round.now, maxWait);
      if waited.0.pc.Sent? then AnsweredBy(waited.0, waited.1, round.reply, round.repliedAt, maxWait) else waited
  }

  lemma WaitedExactly(c: Client, gate: Until, now: int, maxWait: nat)
    requires c.pc.Top?
    ensures Waited(c, gate, now, maxWait)
         == if gate.Some? && gate.value > now + maxWait then (c.(pc := Returned), gate)
            else
              var left := if gate.Some? && gate.value > now then gate.value - now else 0;
              (c.(pc := Sent, sentAt := c.sentAt + [now + left], slept := c.slept + left), gate)
  {
  }

  lemma AnsweredExactly(c: Client, gate: Until, reply: Reply, at: int, maxWait: nat)
    requires c.pc.Sent?
    ensures var r := AnsweredBy(c, gate, reply, at, maxWait);
            r.0.sentAt == c.sentAt && r.0.slept == c.slept
            && r.1 == (if reply.Limited? && reply.after.Some? then Closed(gate, at + reply.after.value) else gate)
            && (r.0.pc.Top? <==> !c.retried && ShortLimit(reply, maxWait))
            && (r.0.pc.Top? || r.0.pc.Returned?) && (r.0.retried <==> c.retried || r.0.pc.Top?)
  {
    hide Closed;
  }

  /**
   * What a round's steps come to, exactly: a client without a hit sends as soon as the gate is open, unless that is
   * later than `maxWait`; a 429 moves the gate, and one short enough brings the client round once more.
   */
  lemma ClientRound(c: Client, until: Until, round: Round, maxWait: nat)
    requires c.pc.Top?
    ensures var r := RoundOf(c, until, round, maxWait);
            var met := Met(until, round);
            if round.hit then r == (c.(pc := Returned), until)
            else if met.Some? && met.value > round.now + maxWait then r == (c.(pc := Returned), met)
            else
              var left := if met.Some? && met.value > round.now then met.value - round.now else 0;
              r.0.sentAt == c.sentAt + [round.now + left] && r.0.slept == c.slept + left
              && r.1 == Replied(met, round)
              && (r.0.pc.Top? <==> !c.retried && ShortLimit(round.reply, maxWait))
              && (r.0.pc.Top? || r.0.pc.Returned?) && (r.0.retried <==> c.retried || r.0.pc.Top?)
  {
    hide Closed, Waited, AnsweredBy, Met, ShortLimit;
    WaitedExactly(c, Met(until, round), round.now, maxWait);
    var waited := Waited(c, Met(until, round), round.now, maxWait);
    if waited.0.pc.Sent? { AnsweredExactly(waited.0, waited.1, round.reply, round.repliedAt, maxWait); }
  }

  /** A client's two rounds at most, among others. */
  function Fetched(until: Until, first: Round, second: Round, maxWait: nat): (Client, Until)
  {
    var once := RoundOf(Client(Top, false, [], 0, 0, 0), until, first, maxWait);
    if once.0.pc.Top? then RoundOf(once.0, once.1, second, maxWait) else once
  }

  /**
   * A fetch sends once its gate opens within `maxWait`, and a second time exactly when the first reply is a 429 short
   * enough to wait out, the cache still has nothing, and the gate opens within `maxWait` again. It sleeps exactly
   * until the gate's times, and the second send comes once the first reply's `Retry-After` has passed.
   */
  lemma FetchedExactly(until: Until, first: Round, second: Round, maxWait: nat)
    ensures var f := Fetched(until, first, second, maxWait);
            var met := Met(until, first);
            var replied := Replied(met, first);
            var met' := Met(replied, second);
            var open, open' := Left(met, first.now), Left(met', second.now);
            f.0.pc.Returned?
            && (if first.hit then f.1 == until && f.0.sentAt == []
                else if met.Some? && met.value > first.now + maxWait then f.1 == met && f.0.sentAt == []
                else if !ShortLimit(first.reply, maxWait) || second.hit then
                  f.1 == replied && f.0.sentAt == [first.now + open]
                else if met'.Some? && met'.value > second.now + maxWait then
                  f.1 == met' && f.0.sentAt == [first.now + open]
                else
                  f.1 == Replied(met', second) && f.0.sentAt == [first.now + open, second.now + open']
                  && second.now + open' >= first.repliedAt + first.reply.after.value)
            && f.0.slept == (if f.0.sentAt != [] then open else 0) + (if |f.0.sentAt| == 2 then open' else 0)
            && f.0.slept <= |f.0.sentAt| * maxWait && NoEarlier(until, f.1)
  {
    hide RoundOf, Closed;
    var c := Client(Top, false, [], 0, 0, 0);
    ClientRound(c, until, first, maxWait);
    var once := RoundOf(c, until, first, maxWait);
    if once.0.pc.Top? { ClientRound(once.0, once.1, second, maxWait); }
  }

  lemma FetchedBounds(until: Until, first: Round, second: Round, maxWait: nat)
    ensures var f := Fetched(until, first, second, maxWait);
            NoEarlier(until, f.1) && |f.0.sentAt| <= 2 && f.0.slept <= 2 * maxWait
            && (|f.0.sentAt| == 2 ==>
                  ShortLimit(first.reply, maxWait) && f.0.sentAt[1] >= first.repliedAt + first.reply.after.value)
  {
    hide Fetched, Met, Replied, Left, ShortLimit;
    FetchedExactly(until, first, second, maxWait);
  }

  /** `fetch` among other clients, who may close the gate further before each read: these are its steps. */
  method Fetch(gate: RateGate, rounds: nat -> Round) returns (sends: nat, slept: nat, ghost sentAt: seq<int>)
    modifies gate
    ensures var f := Fetched(old(gate.until), rounds(0), rounds(1), gate.maxWait);
            gate.until == f.1 && sentAt == f.0.sentAt && slept == f.0.slept && sends == |sentAt|
    ensures NoEarlier(old(gate.until), gate.until) && sends <= 2 && slept <= 2 * gate.maxWait
    ensures sends == 2 ==>
      var first := rounds(0);
      first.reply.Limited? && gate.Retries(first.reply.after)
      && sentAt[1] >= first.repliedAt + first.reply.after.value
  {
    hide WaitAt, Closed, RoundOf, StepClient, NoEarlier, Left;
    FetchedBounds(gate.until, rounds(0), rounds(1), gate.maxWait);
    ghost var c := Client(Top, false, [], 0, 0, 0);
    var retried := false;
    sends, slept, sentAt := 0, 0, [];
    var n := 0;
    while true
      invariant n == sends == |sentAt| == (if retried then 1 else 0)
      invariant c.pc.Top? && c.retried == retried && c.sentAt == sentAt && c.slept == slept
      invariant !retried ==> gate.until == old(gate.until) && c == Client(Top, false, [], 0, 0, 0)
      invariant retried ==>
        (c, gate.until) == RoundOf(Client(Top, false, [], 0, 0, 0), old(gate.until), rounds(0), gate.maxWait)
      decreases 2 - n
    {
      var round := rounds(n);
      ClientRound(c, gate.until, round, gate.maxWait);
      c := RoundOf(c, gate.until, round, gate.maxWait).0;
      if round.hit { return; }
      if round.others.Some? { gate.until := Closed(gate.until, round.others.value); }
      var waiting := gate.Wait(round.now);
      if waiting.TooLong? { return; }
      var left := if waiting.Sleep? then waiting.left else 0;
      slept := slept + left;
      sends := sends + 1;
      sentAt := sentAt + [round.now + left];
      if round.reply.Other? { return; }
      gate.Close(round.reply.after, round.repliedAt);
      if retried || !gate.Retries(round.reply.after) { return; }
      retried := true;
      n := n + 1;
    }
  }
}
