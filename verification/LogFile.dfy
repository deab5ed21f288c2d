/** The rotating log files of one family (`backend-rs/src/logfile.rs`). */
module LogFile {
  import opened Text

  const MAX_SIZE := 20 * 1024 * 1024

  datatype Family = Family(stem: string, ext: string, keepDays: int)

  /** A family that keeps today's files. */
  predicate ValidFamily(f: Family) { f.keepDays >= 1 }

  /** A file: the bytes it had before this run, and the lines this run appended. */
  datatype File = File(before: nat, lines: seq<string>)

  type Dir = map<string, File>

  datatype Open = Open(date: string, index: nat, size: nat)

  /** A line's bytes and its line end. */
  function Bytes(line: string): nat { ByteLen(line) + 1 }

  function LineBytes(lines: seq<string>): nat
  {
    if lines == [] then 0 else LineBytes(lines[..|lines| - 1]) + Bytes(lines[|lines| - 1])
  }

  function Size(f: File): nat { f.before + LineBytes(f.lines) }

  /** `metadata(..).len()`, 0 for a missing file. */
  function SizeAt(dir: Dir, name: string): nat { if name in dir then Size(dir[name]) else 0 }

  function Suffix(index: nat): string { if index == 0 then "" else "." + Decimal(index) }

  /** `file_name`. */
  function FileName(f: Family, date: string, index: nat): string
  {
    f.stem + "-" + (date + (Suffix(index) + f.ext))
  }

  /** Names of the family's files differ when their dates (of ten characters) or their indices do. */
  lemma NamesDiffer(f: Family, date: string, i: nat, date': string, j: nat)
    requires |date| == |date'| == 10 && FileName(f, date, i) == FileName(f, date', j)
    ensures date == date' && i == j
  {
    var p := f.stem + "-";
    var a, b := date + (Suffix(i) + f.ext), date' + (Suffix(j) + f.ext);
    assert a == FileName(f, date, i)[|p|..] && b == FileName(f, date', j)[|p|..];
    assert date == a[..10] && date' == b[..10];
    var s, t := Suffix(i) + f.ext, Suffix(j) + f.ext;
    assert s == a[10..] && t == b[10..];
    assert |Suffix(i)| == |Suffix(j)|;
    assert Suffix(i) == s[..|Suffix(i)|] && Suffix(j) == t[..|Suffix(j)|];
    SuffixesDiffer(i, j);
  }

  lemma SuffixesDiffer(i: nat, j: nat)
    requires Suffix(i) == Suffix(j)
    ensures i == j
  {
    if i > 0 && j > 0 {
      assert Decimal(i) == Suffix(i)[1..] && Decimal(j) == Suffix(j)[1..];
      NatOfPad(i, 1);
      NatOfPad(j, 1);
    }
  }

  // ------------------------------------------------------------------ pruning

  /** A parsed date's day number: `NaiveDate::parse_from_str(_, "%Y-%m-%d")`. */
  type DayOf = string -> Option<int>

  /** A dated file of the family, too old on the day `today`. */
  predicate Outdated(f: Family, name: string, today: int, dayOf: DayOf)
  {
    var prefix := f.stem + "-";
    prefix <= name && |name| >= |prefix| + 10
    && var day := dayOf(name[|prefix|..][..10]); day.Some? && today - day.value >= f.keepDays
  }

  /** Which files are old: those of the family whose name's date lies `keepDays` days back or more. */
  lemma OldFiles(f: Family, date: string, rest: string, name: string, today: int, dayOf: DayOf)
    requires |date| == 10
    ensures Outdated(f, f.stem + "-" + date + rest, today, dayOf)
       <==> dayOf(date).Some? && dayOf(date).value + f.keepDays <= today
    ensures Outdated(f, name, today, dayOf) ==> f.stem + "-" <= name && |name| >= |f.stem| + 11
  {
    var prefix := f.stem + "-";
    var dated := prefix + date + rest;
    assert dated[|prefix|..] == date + rest && (date + rest)[..10] == date;
    assert prefix <= dated;
  }

  /** No file of the current date is outdated. */
  lemma TodayIsKept(f: Family, date: string, index: nat, dayOf: DayOf)
    requires ValidFamily(f) && |date| == 10 && dayOf(date).Some?
    ensures !Outdated(f, FileName(f, date, index), dayOf(date).value, dayOf)
  {
    var prefix := f.stem + "-";
    var rest := date + (Suffix(index) + f.ext);
    assert FileName(f, date, index)[|prefix|..] == rest && rest[..10] == date;
  }

  // ------------------------------------------------------ one date's lines

  /** The lines of this run in the date's first `n` files, read in index order. */
  function LinesOf(f: Family, dir: Dir, date: string, n: nat): seq<string>
  {
    if n == 0 then []
    else
      var name := FileName(f, date, n - 1);
      LinesOf(f, dir, date, n - 1) + if name in dir then dir[name].lines else []
  }

  lemma {:induction false} SameLines(f: Family, dir: Dir, dir': Dir, date: string, n: nat)
    requires forall i :: 0 <= i < n ==> LinesAt(f, dir', date, i) == LinesAt(f, dir, date, i)
    ensures LinesOf(f, dir', date, n) == LinesOf(f, dir, date, n)
    decreases n
  {
    if n > 0 {
      SameLines(f, dir, dir', date, n - 1);
      assert LinesAt(f, dir', date, n - 1) == LinesAt(f, dir, date, n - 1);
    }
  }

  function LinesAt(f: Family, dir: Dir, date: string, i: nat): seq<string>
  {
    var name := FileName(f, date, i);
    if name in dir then dir[name].lines else []
  }

  lemma {:induction false} NoLines(f: Family, dir: Dir, date: string, n: nat)
    requires forall i :: 0 <= i < n ==> LinesAt(f, dir, date, i) == []
    ensures LinesOf(f, dir, date, n) == []
    decreases n
  {
    if n > 0 {
      assert LinesAt(f, dir, date, n - 1) == [];
      NoLines(f, dir, date, n - 1);
    }
  }

  /**
   * What a run keeps: lines of this run stand only under dates seen; the open file exists with the size noted;
   * the files up to it, read in index order, hold today's lines; no later index of today has a line.
   */
  ghost predicate InRun(f: Family, dir: Dir, open: Option<Open>, seen: set<string>, today: seq<string>)
  {
    (forall d, i: nat :: |d| == 10 && LinesAt(f, dir, d, i) != [] ==> d in seen)
    && match open
       case None => today == []
       case Some(o) =>
         |o.date| == 10 && o.date in seen && FileName(f, o.date, o.index) in dir
         && o.size == Size(dir[FileName(f, o.date, o.index)])
         && LinesOf(f, dir, o.date, o.index + 1) == today
         && forall i :: i > o.index ==> LinesAt(f, dir, o.date, i) == []
  }

  /** A file created if missing. */
  function Created(dir: Dir, name: string): Dir { if name in dir then dir else dir[name := File(0, [])] }

  /** A directory that lost only files that aren't of the date. */
  ghost predicate Pruned(f: Family, before: Dir, after: Dir, date: string)
  {
    (forall n :: n in after ==> n in before && after[n] == before[n])
    && forall i: nat :: FileName(f, date, i) in before ==> FileName(f, date, i) in after
  }

  /** Moving on to a file behind the open one, or to another date, keeps the run's order. */
  lemma MovesOn(f: Family, dir: Dir, open: Option<Open>, seen: set<string>, today: seq<string>,
                date: string, index: nat, dir': Dir)
    requires InRun(f, dir, open, seen, today) && |date| == 10
    requires open.Some? && open.value.date == date ==> index > open.value.index
    requires !(open.Some? && open.value.date == date) ==> date !in seen
    requires Pruned(f, Created(dir, FileName(f, date, index)), dir', date)
    ensures var name := FileName(f, date, index);
            name in dir' && dir'[name].lines == [] && Size(dir'[name]) == SizeAt(dir, name)
            && InRun(f, dir', Some(Open(date, index, SizeAt(dir, name))), seen + {date},
                     if open.Some? && open.value.date == date then today else [])
  {
    hide FileName;
    var name := FileName(f, date, index);
    assert LineBytes([]) == 0;
    assert LinesAt(f, dir, date, index) == [];
    forall i: nat ensures LinesAt(f, dir', date, i) == LinesAt(f, dir, date, i) {
      if FileName(f, date, i) == name { NamesDiffer(f, date, i, date, index); }
    }
    forall d, i: nat | |d| == 10 && LinesAt(f, dir', d, i) != [] ensures d in seen + {date} {
      if d != date { assert LinesAt(f, dir, d, i) != []; }
    }
    if open.Some? && open.value.date == date {
      LinesGrow(f, dir', date, open.value.index + 1, index + 1);
      SameLines(f, dir, dir', date, open.value.index + 1);
    } else {
      NoLines(f, dir', date, index + 1);
    }
  }

  /** Files without lines add nothing. */
  lemma {:induction false} LinesGrow(f: Family, dir: Dir, date: string, n: nat, m: nat)
    requires n <= m && forall i :: n <= i < m ==> LinesAt(f, dir, date, i) == []
    ensures LinesOf(f, dir, date, m) == LinesOf(f, dir, date, n)
    decreases m
  {
    if n < m {
      LinesGrow(f, dir, date, n, m - 1);
      assert LinesAt(f, dir, date, m - 1) == [];
    }
  }

  function Longer(file: File, line: string): File { File(file.before, file.lines + [line]) }

  /** A line appended to the open file comes last of today's lines. */
  lemma AppendsLast(f: Family, dir: Dir, o: Open, seen: set<string>, today: seq<string>, line: string)
    requires InRun(f, dir, Some(o), seen, today)
    ensures var name := FileName(f, o.date, o.index);
            Size(Longer(dir[name], line)) == o.size + Bytes(line)
            && InRun(f, dir[name := Longer(dir[name], line)], Some(o.(size := o.size + Bytes(line))), seen,
               today + [line])
  {
    hide FileName;
    var name := FileName(f, o.date, o.index);
    var file := dir[name];
    var dir' := dir[name := Longer(file, line)];
    assert (file.lines + [line])[..|file.lines|] == file.lines;
    forall d, i: nat | |d| == 10 && (d != o.date || i != o.index)
      ensures LinesAt(f, dir', d, i) == LinesAt(f, dir, d, i)
    {
      if FileName(f, d, i) == name { NamesDiffer(f, d, i, o.date, o.index); }
    }
    SameLines(f, dir, dir', o.date, o.index);
  }

  // ----------------------------------------------------------------- the writer

  /** A line of so many bytes goes to another file than the open one. */
  predicate Rotates(open: Option<Open>, date: string, bytes: nat)
  {
    open.None? || open.value.date != date || (open.value.size + bytes > MAX_SIZE && open.value.size > 0)
  }

  predicate SameDate(a: Option<Open>, b: Option<Open>)
  {
    (a.None? && b.None?) || (a.Some? && b.Some? && a.value.date == b.value.date)
  }

  /** Where the search for that file starts. */
  function StartIndex(open: Option<Open>, date: string): nat
  {
    if open.Some? && open.value.date == date then open.value.index + 1 else 0
  }

  /** The first index from `start` whose file isn't full. */
  predicate FirstFree(f: Family, dir: Dir, date: string, start: nat, index: nat)
  {
    index >= start && SizeAt(dir, FileName(f, date, index)) < MAX_SIZE
    && forall i :: start <= i < index ==> SizeAt(dir, FileName(f, date, i)) >= MAX_SIZE
  }

  /** The directory without the files too old on the day `today`. */
  function AfterPrune(f: Family, dir: Dir, today: string, dayOf: DayOf): Dir
  {
    if dayOf(today).None? then dir
    else map n | n in dir && !Outdated(f, n, dayOf(today).value, dayOf) :: dir[n]
  }

  /** The directory once the file `index` of the date is open. */
  function Opened(f: Family, dir: Dir, date: string, index: nat, dayOf: DayOf): Dir
  {
    AfterPrune(f, Created(dir, FileName(f, date, index)), date, dayOf)
  }

  /** What a write does to directory and open file. */
  ghost predicate Written(f: Family, date: string, line: string, dayOf: DayOf, opens: bool, appended: bool,
                          dir0: Dir, open0: Option<Open>, dir: Dir, open: Option<Open>)
  {
    var rotates := Rotates(open0, date, Bytes(line));
    if rotates && !opens then dir == dir0 && open == open0
    else
      open.Some? &&
      var index := open.value.index;
      var name := FileName(f, date, index);
      var dir1 := if rotates then Opened(f, dir0, date, index, dayOf) else dir0;
      var size1 := if rotates then SizeAt(dir0, name) else open0.value.size;
      (if rotates then FirstFree(f, dir0, date, StartIndex(open0, date), index) else index == open0.value.index)
      && name in dir1
      && open.value == Open(date, index, if appended then size1 + Bytes(line) else size1)
      && dir == if appended then dir1[name := Longer(dir1[name], line)] else dir1
  }

  /**
   * A write exactly: it stays in the open file when that is of the date and the line with its line end fits, or the
   * file is empty; else it opens the first file below `MAX_SIZE`, from the next index on or from 0 on another date, and
   * the family's old files go.
   */
  lemma WrittenExactly(f: Family, date: string, line: string, dayOf: DayOf, opens: bool, appended: bool, dir0: Dir,
                       open0: Option<Open>, dir: Dir, open: Option<Open>)
    requires Written(f, date, line, dayOf, opens, appended, dir0, open0, dir, open)
    ensures var bytes := ByteLen(line) + 1;
            var same := open0.Some? && open0.value.date == date;
            var stays := same && (open0.value.size + bytes <= MAX_SIZE || open0.value.size == 0);
            if stays then
              open == Some(open0.value.(size := open0.value.size + if appended then bytes else 0))
              && dir.Keys == dir0.Keys
            else if !opens then dir == dir0 && open == open0
            else
              open.Some? && open.value.date == date
              && (var index, start := open.value.index, if same then open0.value.index + 1 else 0;
                  var name := FileName(f, date, index);
                  index >= start && SizeAt(dir0, name) < MAX_SIZE
                  && (forall i :: start <= i < index ==> SizeAt(dir0, FileName(f, date, i)) >= MAX_SIZE)
                  && open.value.size == SizeAt(dir0, name) + (if appended then bytes else 0)
                  && forall n :: n in dir <==>
                       (n in dir0 || n == name) && !(dayOf(date).Some? && Outdated(f, n, dayOf(date).value, dayOf)))
  {
    hide FileName, Outdated;
  }

  class Writer {
    const family: Family
    var dir: Dir
    var open: Option<Open>
    /** The dates written on in this run, and the lines appended on the open file's date, in order. */
    ghost var seen: set<string>
    ghost var today: seq<string>

    ghost predicate Valid()
      reads this
    {
      ValidFamily(family) && InRun(family, dir, open, seen, today)
    }

    /** A date that may come next: today's, or one not written on before, as dates never go back. */
    ghost predicate Next(date: string)
      reads this
    {
      |date| == 10 && ((open.Some? && open.value.date == date) || date !in seen)
    }

    constructor (family: Family, dir: Dir)
      requires ValidFamily(family) && forall n :: n in dir ==> dir[n].lines == []
      ensures Valid() && this.family == family && this.dir == dir && open == None && seen == {} && today == []
    {
      this.family, this.dir, open, seen, today := family, dir, None, {}, [];
    }

    /**
     * The search of `open_family`: the first index from `start` whose file isn't full. It ends, as full files
     * exist and there are only so many.
     */
    method FindOpen(date: string, start: nat) returns (index: nat)
      requires |date| == 10
      ensures FirstFree(family, dir, date, start, index)
    {
      hide FileName, Size;
      index := start;
      ghost var left := dir.Keys;
      while SizeAt(dir, FileName(family, date, index)) >= MAX_SIZE
        invariant index >= start
        invariant forall i :: start <= i < index ==> SizeAt(dir, FileName(family, date, i)) >= MAX_SIZE
        invariant forall j :: j >= index && FileName(family, date, j) in dir ==> FileName(family, date, j) in left
        decreases left
      {
        ghost var name := FileName(family, date, index);
        forall j | j > index && FileName(family, date, j) in dir ensures FileName(family, date, j) in left - {name} {
          if FileName(family, date, j) == name { NamesDiffer(family, date, j, date, index); }
        }
        left := left - {name};
        index := index + 1;
      }
    }

    /** `prune`: the dated files too old go, all others stay. */
    method Prune(today: string, dayOf: DayOf)
      modifies this`dir
      ensures dir == AfterPrune(family, old(dir), today, dayOf)
    {
      hide Outdated;
      var day := dayOf(today);
      if day.None? { return; }
      var names := dir.Keys;
      ghost var all := dir;
      while names != {}
        invariant names <= all.Keys
        invariant dir == map n | n in all && (n in names || !Outdated(family, n, day.value, dayOf)) :: all[n]
        decreases names
      {
        var name :| name in names;
        names := names - {name};
        if Outdated(family, name, day.value, dayOf) { dir := dir - {name}; }
      }
    }

    /** `open_family` and the prune after it: the first file not full is open, today's files stay. */
    method OpenFamily(date: string, start: nat, dayOf: DayOf)
      requires Valid() && Next(date)
      requires open.Some? && open.value.date == date ==> start == open.value.index + 1
      modifies this
      ensures Valid() && open.Some? && FirstFree(family, old(dir), date, start, open.value.index)
      ensures var name := FileName(family, date, open.value.index);
              open.value == Open(date, open.value.index, SizeAt(old(dir), name)) && name in dir && dir[name].lines == []
      ensures dir == Opened(family, old(dir), date, open.value.index, dayOf)
      ensures today == if old(open).Some? && old(open).value.date == date then old(today) else []
      ensures forall i: nat :: FileName(family, date, i) in old(dir) ==>
        FileName(family, date, i) in dir && dir[FileName(family, date, i)] == old(dir)[FileName(family, date, i)]
      ensures seen == old(seen) + {date}
    {
      hide FileName, InRun, Outdated;
      var index := FindOpen(date, start);
      var name := FileName(family, date, index);
      ghost var before := dir;
      dir := Created(dir, name);
      var size := SizeAt(dir, name);
      assert size == SizeAt(before, name) by { assert LineBytes([]) == 0; }
      Prune(date, dayOf);
      if dayOf(date).Some? {
        forall i: nat ensures !Outdated(family, FileName(family, date, i), dayOf(date).value, dayOf) {
          TodayIsKept(family, date, i, dayOf);
        }
      }
      MovesOn(family, before, open, seen, today, date, index, dir);
      today := if open.Some? && open.value.date == date then today else [];
      seen := seen + {date};
      open := Some(Open(date, index, size));
    }

    /** The `writeln!` of `write_family`: the line comes last of the date's lines. */
    method Append(line: string)
      requires Valid() && open.Some?
      modifies this
      ensures Valid() && seen == old(seen) && today == old(today) + [line]
      ensures var o := old(open).value;
              var name := FileName(family, o.date, o.index);
              open == Some(o.(size := o.size + Bytes(line))) && name in old(dir)
              && dir == old(dir)[name := Longer(old(dir)[name], line)]
              && (o.size == 0 ==> old(dir)[name].lines == [])
              && LinesAt(family, dir, o.date, o.index) == old(dir)[name].lines + [line]
              && open.value.size == o.size + ByteLen(line) + 1
    {
      hide FileName, InRun;
      var o := open.value;
      OpenFileOf(family, dir, o, seen, today);
      AppendsLast(family, dir, o, seen, today, line);
      var name := FileName(family, o.date, o.index);
      dir := dir[name := Longer(dir[name], line)];
      open := Some(o.(size := o.size + Bytes(line)));
      today := today + [line];
    }

    /**
     * `write_family`: the line is appended to a file below `MAX_SIZE`, and only the first line a file gets in
     * this run can take it past `MAX_SIZE`; today's lines stay in order. `opens` and `writes` say whether the
     * file system lets a file be opened and written.
     */
    method WriteFamily(date: string, line: string, dayOf: DayOf, opens: bool, writes: bool) returns (appended: bool)
      requires Valid() && Next(date)
      modifies this
      ensures Valid()
      ensures appended <==> writes && (opens || !Rotates(old(open), date, Bytes(line)))
      ensures var o := old(open);
              var stays := o.Some? && o.value.date == date
                           && (o.value.size + ByteLen(line) + 1 <= MAX_SIZE || o.value.size == 0);
              appended <==> writes && (opens || stays)
      ensures Written(family, date, line, dayOf, opens, appended, old(dir), old(open), dir, open)
      ensures open == old(open) || (open.Some? && open.value.date == date)
      ensures seen == if open.Some? then old(seen) + {open.value.date} else old(seen)
      ensures today == (if SameDate(open, old(open)) then old(today) else []) + if appended then [line] else []
      ensures appended ==> open.Some? && open.value.date == date && open.value.size - Bytes(line) < MAX_SIZE
                           && (open.value.size > MAX_SIZE ==> LinesAt(family, dir, date, open.value.index) == [line])
    {
      hide FileName, InRun, Opened, FirstFree, LinesAt, Longer;
      appended := false;
      if open.Some? { OpenDateSeen(family, dir, open.value, seen, today); }
      var bytes := Bytes(line);
      var rotate := open.None? || open.value.date != date
        || (open.value.size + bytes > MAX_SIZE && open.value.size > 0);
      if rotate {
        var index := if open.Some? && open.value.date == date then open.value.index + 1 else 0;
        if !opens { return; }
        OpenFamily(date, index, dayOf);
        FreeSize(family, old(dir), date, index, open.value.index);
      }
      OpenFileOf(family, dir, open.value, seen, today);
      assert open.value.date in seen by { OpenDateSeen(family, dir, open.value, seen, today); }
      if writes {
        Append(line);
        appended := true;
      }
    }
  }

  lemma FreeSize(f: Family, dir: Dir, date: string, start: nat, index: nat)
    requires FirstFree(f, dir, date, start, index)
    ensures SizeAt(dir, FileName(f, date, index)) < MAX_SIZE
  {
  }

  lemma OpenDateSeen(f: Family, dir: Dir, o: Open, seen: set<string>, today: seq<string>)
    requires InRun(f, dir, Some(o), seen, today)
    ensures o.date in seen
  {
  }

  lemma OpenFileOf(f: Family, dir: Dir, o: Open, seen: set<string>, today: seq<string>)
    requires InRun(f, dir, Some(o), seen, today)
    ensures FileName(f, o.date, o.index) in dir && o.size == Size(dir[FileName(f, o.date, o.index)])
    ensures o.size == 0 ==> dir[FileName(f, o.date, o.index)].lines == []
  {
  }
}
