/** Whole runs of the log writer: lines with dates that never go back (`backend-rs/src/logfile.rs`). */
module LogRuns {
  import opened Text
  import opened LogFile

  /** A line to log: its date, and whether the file system lets a file be opened and written then. */
  datatype Event = Event(date: string, line: string, opens: bool, writes: bool)

  // -------------------------------------------------------------------- dates

  /** The order of the dates' texts, which is the dates' own for texts of the form 2025-02-04. */
  predicate AtMost(a: string, b: string)
  {
    a == [] || (b != [] && (a[0] < b[0] || (a[0] == b[0] && AtMost(a[1..], b[1..]))))
  }

  lemma {:induction false} AtMostBothWays(a: string, b: string)
    requires AtMost(a, b) && AtMost(b, a)
    ensures a == b
    decreases |a|
  {
    if a != [] {
      AtMostBothWays(a[1..], b[1..]);
      assert a == [a[0]] + a[1..] && b == [b[0]] + b[1..];
    }
  }

  lemma {:induction false} AtMostItself(a: string)
    ensures AtMost(a, a)
    decreases |a|
  {
    if a != [] { AtMostItself(a[1..]); }
  }

  predicate Dated(events: seq<Event>)
  {
    (forall i :: 0 <= i < |events| ==> |events[i].date| == 10)
    && forall i, j :: 0 <= i < j < |events| ==> AtMost(events[i].date, events[j].date)
  }

  /** The lines of a date among the appended ones. */
  function AppendedOn(events: seq<Event>, appended: seq<bool>, date: string): seq<string>
    requires |appended| == |events|
  {
    if events == [] then []
    else
      var n := |events| - 1;
      AppendedOn(events[..n], appended[..n], date)
      + if appended[n] && events[n].date == date then [events[n].line] else []
  }

  /** The lines of a date. */
  function LinesOn(events: seq<Event>, date: string): seq<string>
  {
    if events == [] then []
    else
      var e := events[|events| - 1];
      LinesOn(events[..|events| - 1], date) + if e.date == date then [e.line] else []
  }

  lemma {:induction false} AllAppended(events: seq<Event>, appended: seq<bool>, date: string)
    requires |appended| == |events| && forall i :: 0 <= i < |events| ==> appended[i]
    ensures AppendedOn(events, appended, date) == LinesOn(events, date)
    decreases |events|
  {
    if events != [] { AllAppended(events[..|events| - 1], appended[..|events| - 1], date); }
  }

  lemma {:induction false} NothingOn(events: seq<Event>, appended: seq<bool>, date: string)
    requires |appended| == |events| && forall i :: 0 <= i < |events| && appended[i] ==> events[i].date != date
    ensures AppendedOn(events, appended, date) == []
    decreases |events|
  {
    if events != [] { NothingOn(events[..|events| - 1], appended[..|events| - 1], date); }
  }

  // -------------------------------------------------------------------- sizes

  /** Only the first line a file got in the run can have taken it past `MAX_SIZE`, and it was below it before. */
  predicate Bounded(file: File)
  {
    file.lines != [] ==> file.before < MAX_SIZE && (Size(file) <= MAX_SIZE || |file.lines| == 1)
  }

  ghost predicate AllBounded(dir: Dir) { forall n :: n in dir ==> Bounded(dir[n]) }

  lemma OneLine(file: File, line: string)
    requires file.lines == []
    ensures Size(Longer(file, line)) == file.before + Bytes(line)
  {
    assert (file.lines + [line])[..0] == [];
    assert LineBytes([]) == 0;
  }

  lemma BoundedAfter(f: Family, e: Event, dayOf: DayOf, appended: bool, dir0: Dir, open0: Option<Open>, dir: Dir,
                     open: Option<Open>)
    requires AllBounded(dir0) && Written(f, e.date, e.line, dayOf, e.opens, appended, dir0, open0, dir, open)
    requires open.Some? ==> FileName(f, open.value.date, open.value.index) in dir
                            && Size(dir[FileName(f, open.value.date, open.value.index)]) == open.value.size
    requires appended ==> open.Some? && open.value.date == e.date && open.value.size - Bytes(e.line) < MAX_SIZE
                          && (open.value.size > MAX_SIZE ==> LinesAt(f, dir, e.date, open.value.index) == [e.line])
    requires appended ==> !Rotates(open0, e.date, Bytes(e.line)) || e.opens
    ensures AllBounded(dir)
  {
    hide FileName, Outdated, FirstFree, Size;
    if !(Rotates(open0, e.date, Bytes(e.line)) && !e.opens) {
      var name := FileName(f, e.date, open.value.index);
      var rotates := Rotates(open0, e.date, Bytes(e.line));
      var dir1 := if rotates then Opened(f, dir0, e.date, open.value.index, dayOf) else dir0;
      OpenedBounded(f, dir0, e.date, open.value.index, dayOf);
      if appended { LongerBounded(dir1[name], e.line, open.value.size); }
    }
  }

  lemma OpenedBounded(f: Family, dir: Dir, date: string, index: nat, dayOf: DayOf)
    requires AllBounded(dir)
    ensures AllBounded(Opened(f, dir, date, index, dayOf))
  {
    hide FileName, Outdated, Size;
  }

  lemma LongerBounded(file: File, line: string, size: nat)
    requires Bounded(file) && Size(Longer(file, line)) == size && size - Bytes(line) < MAX_SIZE
    requires size > MAX_SIZE ==> Longer(file, line).lines == [line]
    ensures Bounded(Longer(file, line))
  {
    if file.lines == [] { OneLine(file, line); }
  }

  lemma BoundedBefore(dir: Dir)
    requires forall n :: n in dir ==> dir[n].lines == []
    ensures AllBounded(dir)
  {
  }

  // ---------------------------------------------------------- what dates allow

  /**
   * The dates opened so far come no later than the open file's and than those of the events from the `k`-th on.
   */
  ghost predicate Follows(events: seq<Event>, k: nat, open: Option<Open>, seen: set<string>)
  {
    (if open.None? then seen == {} else open.value.date in seen)
    && forall d :: d in seen ==>
         open.Some? && AtMost(d, open.value.date) && forall j :: k <= j < |events| ==> AtMost(d, events[j].date)
  }

  /** So the next event's date is the open file's, or wasn't opened before. */
  lemma NextDate(events: seq<Event>, k: nat, open: Option<Open>, seen: set<string>)
    requires Dated(events) && k < |events| && Follows(events, k, open, seen)
    ensures |events[k].date| == 10 && ((open.Some? && open.value.date == events[k].date) || events[k].date !in seen)
  {
    hide AtMost;
    if events[k].date in seen { AtMostBothWays(events[k].date, open.value.date); }
  }

  lemma FollowsOn(events: seq<Event>, k: nat, open0: Option<Open>, seen0: set<string>, open: Option<Open>,
                  seen: set<string>)
    requires Dated(events) && k < |events| && Follows(events, k, open0, seen0)
    requires open == open0 || (open.Some? && open.value.date == events[k].date)
    requires seen == if open.Some? then seen0 + {open.value.date} else seen0
    ensures Follows(events, k + 1, open, seen)
  {
    hide AtMost;
    AtMostItself(events[k].date);
  }

  predicate Working(events: seq<Event>) { forall k :: 0 <= k < |events| ==> events[k].opens && events[k].writes }

  /** A write leaves some file open once one could be opened; when it can, the date's is. */
  lemma OpenAfter(f: Family, e: Event, dayOf: DayOf, appended: bool, dir0: Dir, open0: Option<Open>, dir: Dir,
                  open: Option<Open>)
    requires Written(f, e.date, e.line, dayOf, e.opens, appended, dir0, open0, dir, open)
    ensures e.opens || open0.Some? ==> open.Some?
    ensures e.opens ==> open.value.date == e.date
  {
    hide FileName, Opened, FirstFree, Bytes;
  }

  /** The lines of the open file's date among the events, after one more. */
  lemma TodayOn(events: seq<Event>, k: nat, appended: seq<bool>, done: bool, open0: Option<Open>, seen0: set<string>,
                open: Option<Open>, today0: seq<string>)
    requires |appended| == k < |events| && open.Some?
    requires open == open0 || open.value.date == events[k].date
    requires done ==> open.value.date == events[k].date
    requires SameDate(open, open0) || events[k].date !in seen0
    requires SoFar(events, appended, open0, seen0)
    requires open0.Some? ==> today0 == AppendedOn(events[..k], appended, open0.value.date)
    ensures AppendedOn(events[..k + 1], appended + [done], open.value.date)
         == (if SameDate(open, open0) then today0 else []) + if done then [events[k].line] else []
  {
    var all := appended + [done];
    assert events[..k + 1][..k] == events[..k] && all[..k] == appended;
    if !SameDate(open, open0) { NothingOn(events[..k], appended, open.value.date); }
  }

  /** The date's files up to the open one hold the lines in index order, and those behind it none. */
  ghost predicate Holds(f: Family, dir: Dir, o: Open, lines: seq<string>)
  {
    LinesOf(f, dir, o.date, o.index + 1) == lines && forall i :: i > o.index ==> LinesAt(f, dir, o.date, i) == []
  }

  lemma HoldsToday(f: Family, dir: Dir, o: Open, seen: set<string>, today: seq<string>)
    requires InRun(f, dir, Some(o), seen, today)
    ensures Holds(f, dir, o, today)
  {
  }

  // --------------------------------------------------------------- what is done

  /** After the first lines: what their writes say of the dates opened and of the open file. */
  ghost predicate SoFar(events: seq<Event>, appended: seq<bool>, open: Option<Open>, seen: set<string>)
    requires |appended| <= |events|
  {
    var k := |appended|;
    (forall i :: 0 <= i < k && appended[i] ==> events[i].writes && events[i].date in seen)
    && (forall i :: 0 <= i < k && events[i].opens && events[i].writes ==> appended[i])
    && (open.None? ==> forall i :: 0 <= i < k ==> !appended[i] && !events[i].opens)
    && (k > 0 && events[k - 1].opens ==> open.Some? && open.value.date == events[k - 1].date)
  }

  lemma NothingYet(events: seq<Event>)
    ensures Follows(events, 0, None, {}) && SoFar(events, [], None, {})
  {
  }

  lemma SoFarOn(events: seq<Event>, appended: seq<bool>, done: bool, open0: Option<Open>, seen0: set<string>,
                open: Option<Open>, seen: set<string>)
    requires |appended| < |events| && SoFar(events, appended, open0, seen0)
    requires seen == if open.Some? then seen0 + {open.value.date} else seen0
    requires var e := events[|appended|];
             (done ==> e.writes && open.Some? && open.value.date == e.date) && (e.opens && e.writes ==> done)
             && (e.opens || open0.Some? ==> open.Some?) && (e.opens ==> open.value.date == e.date)
    ensures SoFar(events, appended + [done], open, seen)
  {
    var all := appended + [done];
    assert forall i :: 0 <= i < |appended| ==> all[i] == appended[i];
  }

  /** At the end, a run in which everything worked appended every line, to files of the last date. */
  lemma SoFarAll(events: seq<Event>, appended: seq<bool>, open: Option<Open>, seen: set<string>)
    requires |appended| == |events| && SoFar(events, appended, open, seen)
    ensures forall k :: 0 <= k < |events| && appended[k] ==> events[k].writes
    ensures open.None? ==> forall k :: 0 <= k < |events| ==> !appended[k] && !events[k].opens
    ensures Working(events) && events != [] ==>
      open.Some? && open.value.date == events[|events| - 1].date && (forall k :: 0 <= k < |events| ==> appended[k])
      && AppendedOn(events, appended, open.value.date) == LinesOn(events, open.value.date)
  {
    if Working(events) && events != [] { AllAppended(events, appended, open.value.date); }
  }

  // ------------------------------------------------------------------ the runs

  /**
   * A whole run from a directory without lines of it, whatever the file system answers: the open file's date has
   * its appended lines in its files up to the open one, in the order written, and none behind it; only the first
   * line a file gets can take it past `MAX_SIZE`. While everything works, that date is the last one, and every
   * line of it is there.
   */
  method LogRun(f: Family, dir0: Dir, events: seq<Event>, dayOf: DayOf)
    returns (dir: Dir, open: Option<Open>, appended: seq<bool>)
    requires ValidFamily(f) && (forall n :: n in dir0 ==> dir0[n].lines == []) && Dated(events)
    ensures |appended| == |events| && forall k :: 0 <= k < |events| && appended[k] ==> events[k].writes
    ensures open.Some? ==> Holds(f, dir, open.value, AppendedOn(events, appended, open.value.date))
    ensures open.None? ==> forall k :: 0 <= k < |events| ==> !appended[k] && !events[k].opens
    ensures AllBounded(dir)
    ensures Working(events) && events != [] ==>
      open.Some? && open.value.date == events[|events| - 1].date && (forall k :: 0 <= k < |events| ==> appended[k])
      && Holds(f, dir, open.value, LinesOn(events, open.value.date))
  {
    hide FileName, InRun, Written, Rotates, AllBounded, LinesAt, AppendedOn, Follows, Dated, Holds, LinesOn, LinesOf,
         Bytes, AtMost, SoFar;
    var w := new Writer(f, dir0);
    BoundedBefore(dir0);
    appended := [];
    NothingYet(events);
    for k := 0 to |events|
      invariant w.Valid() && w.family == f && |appended| == k && fresh(w)
      invariant AllBounded(w.dir) && Follows(events, k, w.open, w.seen)
      invariant SoFar(events, appended, w.open, w.seen)
      invariant w.open.Some? ==> w.today == AppendedOn(events[..k], appended, w.open.value.date)
    {
      var e := events[k];
      ghost var open0, seen0, before, today0 := w.open, w.seen, w.dir, w.today;
      NextDate(events, k, w.open, w.seen);
      var done := w.WriteFamily(e.date, e.line, dayOf, e.opens, e.writes);
      FollowsOn(events, k, open0, seen0, w.open, w.seen);
      OpenAfter(f, e, dayOf, done, before, open0, w.dir, w.open);
      SoFarOn(events, appended, done, open0, seen0, w.open, w.seen);
      if w.open.Some? {
        OpenFileOf(f, w.dir, w.open.value, w.seen, w.today);
        TodayOn(events, k, appended, done, open0, seen0, w.open, today0);
      }
      BoundedAfter(f, e, dayOf, done, before, open0, w.dir, w.open);
      appended := appended + [done];
    }
    dir, open := w.dir, w.open;
    assert events[..|events|] == events;
    SoFarAll(events, appended, open, w.seen);
    if open.Some? { HoldsToday(f, dir, open.value, w.seen, w.today); }
  }

  // ------------------------------------------------------------- the two families

  const TEXT := Family("seerr", ".log", 7)
  const MACHINE := Family(".machinelogs", ".json", 1)

  /** The two families share a directory: their names differ, and neither prunes the other's files. */
  lemma FamiliesApart(d: string, i: nat, d': string, j: nat, today: int, dayOf: DayOf)
    ensures FileName(TEXT, d, i) != FileName(MACHINE, d', j)
    ensures !Outdated(TEXT, FileName(MACHINE, d', j), today, dayOf)
    ensures !Outdated(MACHINE, FileName(TEXT, d, i), today, dayOf)
  {
    hide Suffix;
    assert FileName(TEXT, d, i)[0] == 's' && FileName(MACHINE, d', j)[0] == '.';
    assert (TEXT.stem + "-")[0] == 's' && (MACHINE.stem + "-")[0] == '.';
  }

  /** What is logged at once: a line for each family. */
  datatype Logged = Logged(date: string, text: string, machine: string)

  function TextEvents(all: seq<Logged>): (events: seq<Event>)
    ensures |events| == |all|
    ensures forall i :: 0 <= i < |all| ==> events[i] == Event(all[i].date, all[i].text, true, true)
  {
    seq(|all|, i requires 0 <= i < |all| => Event(all[i].date, all[i].text, true, true))
  }

  function MachineEvents(all: seq<Logged>): (events: seq<Event>)
    ensures |events| == |all|
    ensures forall i :: 0 <= i < |all| ==> events[i] == Event(all[i].date, all[i].machine, true, true)
  {
    seq(|all|, i requires 0 <= i < |all| => Event(all[i].date, all[i].machine, true, true))
  }

  /**
   * `Writer::write` over a run with a working file system: each family, on its own files of the directory, holds
   * the last date's lines in the order written.
   */
  method LogAll(texts: Dir, machines: Dir, all: seq<Logged>, dayOf: DayOf)
    returns (texts': Dir, machines': Dir, text: Option<Open>, machine: Option<Open>)
    requires Dated(TextEvents(all))
    requires forall n :: n in texts ==> texts[n].lines == []
    requires forall n :: n in machines ==> machines[n].lines == []
    ensures all != [] ==>
      var date := all[|all| - 1].date;
      text.Some? && machine.Some? && text.value.date == machine.value.date == date
      && Holds(TEXT, texts', text.value, LinesOn(TextEvents(all), date))
      && Holds(MACHINE, machines', machine.value, LinesOn(MachineEvents(all), date))
    ensures AllBounded(texts') && AllBounded(machines')
  {
    hide AllBounded, Holds, LinesOn, AtMost;
    var texted, machined: seq<bool>;
    texts', text, texted := LogRun(TEXT, texts, TextEvents(all), dayOf);
    assert Dated(MachineEvents(all)) by {
      assert forall i :: 0 <= i < |all| ==> MachineEvents(all)[i].date == TextEvents(all)[i].date;
    }
    machines', machine, machined := LogRun(MACHINE, machines, MachineEvents(all), dayOf);
  }
}
