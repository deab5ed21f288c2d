/** Run-length lists with a length cap (`runs`, `capped` and the ranges of `backend-rs/src/lifecycle.rs`). */
module Ranges {
  import opened Text

  /** A number under a key: an episode of a season, or a season (one key for all). */
  datatype Item = Item(key: int, number: int)

  predicate Less(a: Item, b: Item) { a.key < b.key || (a.key == b.key && a.number < b.number) }

  predicate Increasing(s: seq<Item>) { forall i, j :: 0 <= i < j < |s| ==> Less(s[i], s[j]) }

  function InsertDistinct(x: Item, s: seq<Item>): seq<Item>
  {
    if s == [] then [x]
    else if s[0] == x then s
    else if Less(s[0], x) then [s[0]] + InsertDistinct(x, s[1..])
    else [x] + s
  }

  /** `sort_unstable` and `dedup`. */
  function Distinct(items: seq<Item>): seq<Item>
  {
    if items == [] then [] else InsertDistinct(items[0], Distinct(items[1..]))
  }

  lemma {:induction false} InsertDistinctSorted(x: Item, s: seq<Item>)
    requires Increasing(s)
    ensures var r := InsertDistinct(x, s); Increasing(r) && forall y :: y in r <==> y == x || y in s
    decreases |s|
  {
    if s != [] {
      assert s == [s[0]] + s[1..];
      InsertDistinctSorted(x, s[1..]);
      if s[0] != x && Less(s[0], x) {
        var rest := InsertDistinct(x, s[1..]);
        forall i | 0 <= i < |rest| ensures Less(s[0], rest[i]) {
          assert rest[i] in rest;
        }
      }
    }
  }

  lemma {:induction false} DistinctSorted(items: seq<Item>)
    ensures Increasing(Distinct(items)) && forall y :: y in Distinct(items) <==> y in items
    decreases |items|
  {
    if items != [] {
      DistinctSorted(items[1..]);
      InsertDistinctSorted(items[0], Distinct(items[1..]));
      assert items == [items[0]] + items[1..];
    }
  }

  /** The numbers `first` to `last` under a key. */
  datatype Run = Run(key: int, first: int, last: int)

  predicate In(x: Item, r: Run) { x.key == r.key && r.first <= x.number <= r.last }

  /** One of the runs holds the item. */
  predicate Covers(runs: seq<Run>, x: Item) { exists i :: 0 <= i < |runs| && In(x, runs[i]) }

  /** `a` ends before `b` starts, with a gap when they share the key. */
  predicate Apart(a: Run, b: Run) { a.key < b.key || (a.key == b.key && a.last + 1 < b.first) }

  /** Non-empty runs, sorted, disjoint and none that could be merged. */
  predicate Maximal(runs: seq<Run>)
  {
    (forall i :: 0 <= i < |runs| ==> runs[i].first <= runs[i].last)
    && forall i, j :: 0 <= i < j < |runs| ==> Apart(runs[i], runs[j])
  }

  function Size(r: Run): int { r.last - r.first + 1 }

  /** How many items the runs stand for. */
  function Total(runs: seq<Run>): int
  {
    if runs == [] then 0 else Total(runs[..|runs| - 1]) + Size(runs[|runs| - 1])
  }

  /** The loop of `runs` over the sorted items, and its result: nothing lost, nothing invented. */
  method Runs(items: seq<Item>) returns (runs: seq<Run>)
    ensures Maximal(runs) && forall x :: Covers(runs, x) <==> x in items
    ensures Total(runs) == |Distinct(items)|
  {
    hide Covers, Maximal, Total, Increasing;
    var sorted := Distinct(items);
    DistinctSorted(items);
    runs := [];
    NoRuns();
    for i := 0 to |sorted|
      invariant Built(sorted[..i], runs)
    {
      var x := sorted[i];
      assert sorted[..i + 1] == sorted[..i] + [x];
      PrefixIncreasing(sorted, i + 1);
      if runs != [] && runs[|runs| - 1].key == x.key && runs[|runs| - 1].last + 1 == x.number {
        ExtendLast(sorted[..i], runs, x);
        runs := runs[|runs| - 1 := runs[|runs| - 1].(last := x.number)];
      } else {
        StartNew(sorted[..i], runs, x);
        runs := runs + [Run(x.key, x.number, x.number)];
      }
    }
    assert sorted[..|sorted|] == sorted;
  }

  /** The runs of a sorted prefix: they cover it, are maximal, count it, and end where it ends. */
  ghost predicate Built(done: seq<Item>, runs: seq<Run>)
  {
    Maximal(runs) && (forall x :: Covers(runs, x) <==> x in done) && Total(runs) == |done|
    && (done == [] <==> runs == [])
    && (runs != [] ==> var r, x := runs[|runs| - 1], done[|done| - 1]; r.key == x.key && r.last == x.number)
  }

  lemma NoRuns()
    ensures Built([], [])
  {
  }

  lemma PrefixIncreasing(s: seq<Item>, n: nat)
    requires Increasing(s) && n <= |s|
    ensures Increasing(s[..n])
  {
  }

  lemma ExtendLast(done: seq<Item>, runs: seq<Run>, x: Item)
    requires Built(done, runs) && runs != []
    requires var r := runs[|runs| - 1]; r.key == x.key && r.last + 1 == x.number
    ensures Built(done + [x], runs[|runs| - 1 := runs[|runs| - 1].(last := x.number)])
  {
    var n := |runs| - 1;
    var r := runs[n];
    var runs' := runs[n := r.(last := x.number)];
    assert runs'[..n] == runs[..n];
    forall y ensures Covers(runs', y) <==> y in done + [x] {
      if Covers(runs', y) {
        var i :| 0 <= i < |runs'| && In(y, runs'[i]);
        if i < n || y != x { assert In(y, runs[i]); }
      }
      if Covers(runs, y) {
        var i :| 0 <= i < |runs| && In(y, runs[i]);
        assert In(y, runs'[i]);
      }
      if y == x { assert In(y, runs'[n]); }
    }
  }

  lemma StartNew(done: seq<Item>, runs: seq<Run>, x: Item)
    requires Built(done, runs) && Increasing(done + [x])
    requires runs != [] ==> !(runs[|runs| - 1].key == x.key && runs[|runs| - 1].last + 1 == x.number)
    ensures Built(done + [x], runs + [Run(x.key, x.number, x.number)])
  {
    var n := |runs|;
    var runs' := runs + [Run(x.key, x.number, x.number)];
    assert runs'[..n] == runs;
    if runs != [] {
      assert Less((done + [x])[|done| - 1], (done + [x])[|done|]);
      assert Apart(runs[n - 1], runs'[n]);
      forall i | 0 <= i < n ensures Apart(runs[i], runs'[n]) {
        if i < n - 1 { assert Apart(runs[i], runs[n - 1]); }
      }
    }
    forall y ensures Covers(runs', y) <==> y in done + [x] {
      if Covers(runs', y) {
        var i :| 0 <= i < |runs'| && In(y, runs'[i]);
        if i < n { assert In(y, runs[i]); }
      }
      if Covers(runs, y) {
        var i :| 0 <= i < |runs| && In(y, runs[i]);
        assert In(y, runs'[i]);
      }
      if y == x { assert In(y, runs'[n]); }
    }
  }

  /** There is only one way to write a set of items as maximal runs. */
  lemma {:induction false} OneRunList(a: seq<Run>, b: seq<Run>)
    requires Maximal(a) && Maximal(b) && forall x :: Covers(a, x) <==> Covers(b, x)
    ensures a == b
    decreases |a|
  {
    if a == [] {
      if b != [] { assert In(Item(b[0].key, b[0].first), b[0]); assert Covers(b, Item(b[0].key, b[0].first)); }
    } else {
      var start := Item(a[0].key, a[0].first);
      assert In(start, a[0]) && Covers(a, start);
      assert b != [];
      FirstRun(a, b);
      FirstRun(b, a);
      assert a[0] == b[0];
      forall x ensures Covers(a[1..], x) <==> Covers(b[1..], x) {
        CoversRest(a, x);
        CoversRest(b, x);
      }
      OneRunList(a[1..], b[1..]);
      assert a == [a[0]] + a[1..] && b == [b[0]] + b[1..];
    }
  }

  lemma CoversRest(a: seq<Run>, x: Item)
    requires a != [] && Maximal(a)
    ensures Covers(a[1..], x) <==> Covers(a, x) && !In(x, a[0])
  {
    if Covers(a[1..], x) {
      var i :| 0 <= i < |a[1..]| && In(x, a[1..][i]);
      assert In(x, a[i + 1]) && Apart(a[0], a[i + 1]);
    }
    if Covers(a, x) && !In(x, a[0]) {
      var i :| 0 <= i < |a| && In(x, a[i]);
      assert In(x, a[1..][i - 1]);
    }
  }

  /** The first runs start together, and `a`'s isn't the shorter one. */
  lemma FirstRun(a: seq<Run>, b: seq<Run>)
    requires a != [] && b != [] && Maximal(a) && Maximal(b) && forall x :: Covers(a, x) <==> Covers(b, x)
    ensures a[0].key == b[0].key && a[0].first == b[0].first && b[0].last <= a[0].last
  {
    LeastCovered(a, Item(b[0].key, b[0].first), b);
    LeastCovered(b, Item(a[0].key, a[0].first), a);
    NotPastFirst(a);
    assert !In(Item(a[0].key, a[0].last + 1), b[0]);
  }

  lemma NotPastFirst(a: seq<Run>)
    requires a != [] && Maximal(a)
    ensures !Covers(a, Item(a[0].key, a[0].last + 1))
  {
    forall i | 0 <= i < |a| ensures !In(Item(a[0].key, a[0].last + 1), a[i]) {
      if i > 0 { assert Apart(a[0], a[i]); }
    }
  }

  lemma LeastCovered(a: seq<Run>, start: Item, b: seq<Run>)
    requires a != [] && b != [] && Maximal(a) && Maximal(b) && start == Item(b[0].key, b[0].first)
    requires forall x :: Covers(a, x) <==> Covers(b, x)
    ensures !Less(start, Item(a[0].key, a[0].first))
  {
    assert In(start, b[0]) && Covers(b, start);
    var i :| 0 <= i < |a| && In(start, a[i]);
    if i > 0 { assert Apart(a[0], a[i]); }
  }

  // ------------------------------------------------------------------- the cap

  const EXTRA_MAX := 400

  /** A text and how many items it stands for. */
  datatype Part = Part(text: string, count: int)

  function Sum(parts: seq<Part>): int
  {
    if parts == [] then 0 else parts[0].count + Sum(parts[1..])
  }

  lemma {:induction false} SumSplit(parts: seq<Part>, k: nat)
    requires k <= |parts|
    ensures Sum(parts[..k]) + Sum(parts[k..]) == Sum(parts)
    decreases |parts|
  {
    if k > 0 {
      SumSplit(parts[1..], k - 1);
      assert parts[..k][1..] == parts[1..][..k - 1] && parts[k..] == parts[1..][k - 1..];
    } else {
      assert parts[0..] == parts;
    }
  }

  /** The texts joined with commas. */
  function Joined(parts: seq<Part>): string
  {
    if parts == [] then ""
    else
      var head := Joined(parts[..|parts| - 1]);
      (if head == "" then "" else head + ", ") + parts[|parts| - 1].text
  }

  function Noun(rest: int, one: string, many: string): string { if rest == 1 then one else many }

  /** The next part doesn't fit behind the joined ones. */
  predicate TooLong(parts: seq<Part>, i: nat)
    requires i < |parts|
  {
    Joined(parts[..i]) != "" && ByteLen(Joined(parts[..i])) + 2 + ByteLen(parts[i].text) > EXTRA_MAX
  }

  /** How many parts are shown: up to the first, from the `i`-th on, that doesn't fit. */
  function Shown(parts: seq<Part>, i: nat): (shown: nat)
    requires i <= |parts|
    ensures i <= shown <= |parts| && (forall k :: i <= k < shown ==> !TooLong(parts, k))
        && (shown < |parts| ==> TooLong(parts, shown))
    decreases |parts| - i
  {
    if i == |parts| || TooLong(parts, i) then i else Shown(parts, i + 1)
  }

  /** The shown parts joined, and the items of the others counted. */
  function CappedText(parts: seq<Part>, one: string, many: string): string
  {
    var shown := Shown(parts, 0);
    var rest := Sum(parts[shown..]);
    Joined(parts[..shown])
    + if shown == |parts| then "" else " and " + PadSigned(rest, 1) + " more " + Noun(rest, one, many)
  }

  /** `capped`: the parts go out one by one until one doesn't fit. */
  method Capped(parts: seq<Part>, one: string, many: string) returns (out: string)
    ensures out == CappedText(parts, one, many)
  {
    hide ByteLen, Sum;
    out := "";
    for i := 0 to |parts|
      invariant out == Joined(parts[..i]) && Shown(parts, i) == Shown(parts, 0)
    {
      var text := parts[i].text;
      if out != "" && ByteLen(out) + 2 + ByteLen(text) > EXTRA_MAX {
        var rest := Sum(parts[i..]);
        var noun := if rest == 1 then one else many;
        out := out + (" and " + PadSigned(rest, 1) + " more " + noun);
        return;
      }
      assert parts[..i + 1][..i] == parts[..i];
      if out != "" { out := out + ", "; }
      out := out + text;
    }
    assert out + "" == out;
  }

  /** The joined parts are within the cap, or are one part alone. */
  predicate Fits(parts: seq<Part>, shown: nat)
    requires shown <= |parts|
  {
    ByteLen(Joined(parts[..shown])) <= EXTRA_MAX
    || exists i :: 0 <= i < shown && Joined(parts[..shown]) == parts[i].text
  }

  lemma {:induction false} FitsUpTo(parts: seq<Part>, n: nat)
    requires n <= |parts| && forall k :: 0 <= k < n ==> !TooLong(parts, k)
    ensures Fits(parts, n)
    ensures (forall p :: p in parts ==> p.text != "") ==>
      (n > 0 ==> Joined(parts[..n]) != "") && (n >= 2 ==> ByteLen(Joined(parts[..n])) <= EXTRA_MAX)
    decreases n
  {
    hide ByteLen;
    CommaLength();
    if n > 0 {
      FitsUpTo(parts, n - 1);
      assert !TooLong(parts, n - 1);
      var head, text := Joined(parts[..n - 1]), parts[n - 1].text;
      assert parts[..n][..n - 1] == parts[..n - 1];
      ByteLenAppend(head + ", ", text);
      ByteLenAppend(head, ", ");
      if head == "" { assert "" + text == text; }
    }
  }

  /**
   * Nothing is lost from the count: the items shown plus the counted rest are all items. The joined list stays
   * within `EXTRA_MAX` bytes unless it is one part alone, the first when no text is empty.
   */
  lemma CappedCounts(parts: seq<Part>)
    ensures var shown := Shown(parts, 0);
            Sum(parts[..shown]) + Sum(parts[shown..]) == Sum(parts) && Fits(parts, shown)
            && ((forall p :: p in parts ==> p.text != "") && ByteLen(Joined(parts[..shown])) > EXTRA_MAX ==> shown == 1)
  {
    hide ByteLen, Sum, Fits, TooLong, Joined;
    var shown := Shown(parts, 0);
    SumSplit(parts, shown);
    FitsUpTo(parts, shown);
    if shown == 0 { NoneJoined(); assert parts[..0] == []; }
  }

  lemma {:induction false} JoinedGrows(parts: seq<Part>, n: nat)
    requires n < |parts| && forall p :: p in parts ==> p.text != ""
    ensures Joined(parts[..n + 1]) != ""
    ensures ByteLen(Joined(parts[..n + 1]))
         == if n == 0 then ByteLen(parts[0].text) else ByteLen(Joined(parts[..n])) + 2 + ByteLen(parts[n].text)
  {
    hide ByteLen;
    assert parts[..n + 1][..n] == parts[..n] && parts[n] in parts;
    CommaLength();
    if n == 0 {
      assert parts[..0] == [] && "" + parts[0].text == parts[0].text;
    } else {
      JoinedGrows(parts, n - 1);
      ByteLenAppend(Joined(parts[..n]) + ", ", parts[n].text);
      ByteLenAppend(Joined(parts[..n]), ", ");
    }
  }

  /** As many parts are shown as fit: the first, and every next one until the list would pass `EXTRA_MAX`. */
  lemma ShownExactly(parts: seq<Part>, k: nat)
    requires (forall p :: p in parts ==> p.text != "") && 0 < k <= |parts|
    ensures k <= Shown(parts, 0)
       <==> forall j :: 2 <= j <= k ==> ByteLen(Joined(parts[..j])) <= EXTRA_MAX
  {
    hide ByteLen, Joined;
    forall j | 0 <= j < |parts| ensures TooLong(parts, j) <==> j > 0 && ByteLen(Joined(parts[..j + 1])) > EXTRA_MAX {
      JoinedGrows(parts, j);
      if j > 0 { JoinedGrows(parts, j - 1); } else { NoneJoined(); assert parts[..0] == []; NoText(); }
    }
    var shown := Shown(parts, 0);
    if k <= shown {
      forall j | 2 <= j <= k ensures ByteLen(Joined(parts[..j])) <= EXTRA_MAX { assert !TooLong(parts, j - 1); }
    } else if shown > 0 {
      assert TooLong(parts, shown);
      assert ByteLen(Joined(parts[..shown + 1])) > EXTRA_MAX;
    }
  }

  lemma NoText()
    ensures Joined([]) == ""
  {
  }

  /** The text: the shown parts, and when some are left, how many items these stand for, in decimal, and the noun. */
  lemma CappedReads(parts: seq<Part>, one: string, many: string) returns (rest: string)
    requires Sum(parts[Shown(parts, 0)..]) >= 0
    ensures var shown := Shown(parts, 0);
            var left := Sum(parts[shown..]);
            Spells(rest, left, 1)
            && CappedText(parts, one, many) == Joined(parts[..shown])
               + if shown == |parts| then "" else " and " + rest + " more " + if left == 1 then one else many
  {
    hide Shown, Joined, Sum, Spells;
    rest := PadSigned(Sum(parts[Shown(parts, 0)..]), 1);
    PadSpells(Sum(parts[Shown(parts, 0)..]), 1);
  }

  lemma NoneJoined()
    ensures ByteLen(Joined([])) == 0
  {
  }

  lemma CommaLength()
    ensures ByteLen("") == 0 && ByteLen(", ") == 2
  {
    assert ", "[..1] == "," && ","[..0] == "";
    assert ByteLen(",") == 1;
  }

  // ---------------------------------------------------------------- the ranges

  function EpisodeText(r: Run): string
  {
    var first := "S" + PadSigned(r.key, 2) + "E" + PadSigned(r.first, 2);
    if r.first == r.last then first else first + "\U{2013}E" + PadSigned(r.last, 2)
  }

  function SeasonText(r: Run): string
  {
    if r.first == r.last then PadSigned(r.first, 1) else PadSigned(r.first, 1) + "\U{2013}" + PadSigned(r.last, 1)
  }

  /** A number that isn't negative, or a minus sign and its digits; the sign counts towards the width. */
  predicate SpellsSigned(s: string, n: int, width: nat)
  {
    if n >= 0 then Spells(s, n, width)
    else s != [] && s[0] == '-' && Spells(s[1..], -n, if width == 0 then 0 else width - 1)
  }

  lemma PadSignedSpells(n: int, width: nat)
    ensures SpellsSigned(PadSigned(n, width), n, width)
  {
    hide Spells;
    if n >= 0 {
      PadSpells(n, width);
    } else {
      var w := if width == 0 then 0 else width - 1;
      PadSpells(-n, w);
      assert PadSigned(n, width)[1..] == Pad(-n, w);
    }
  }

  /** `S01E03`, or `S01E03–E07` for several episodes: the numbers with two digits at least. */
  lemma EpisodeSpelled(r: Run) returns (key: string, first: string, last: string)
    ensures SpellsSigned(key, r.key, 2) && SpellsSigned(first, r.first, 2) && SpellsSigned(last, r.last, 2)
    ensures EpisodeText(r) == "S" + key + "E" + first + if r.first == r.last then "" else "\U{2013}E" + last
  {
    hide SpellsSigned;
    key, first, last := PadSigned(r.key, 2), PadSigned(r.first, 2), PadSigned(r.last, 2);
    PadSignedSpells(r.key, 2);
    PadSignedSpells(r.first, 2);
    PadSignedSpells(r.last, 2);
    assert "S" + key + "E" + first + "" == "S" + key + "E" + first;
  }

  /** `3`, or `1–3` for several seasons. */
  lemma SeasonSpelled(r: Run) returns (first: string, last: string)
    ensures SpellsSigned(first, r.first, 1) && SpellsSigned(last, r.last, 1)
    ensures SeasonText(r) == first + if r.first == r.last then "" else "\U{2013}" + last
  {
    hide SpellsSigned;
    first, last := PadSigned(r.first, 1), PadSigned(r.last, 1);
    PadSignedSpells(r.first, 1);
    PadSignedSpells(r.last, 1);
    assert first + "" == first;
  }

  function Parts(runs: seq<Run>, text: Run -> string): (parts: seq<Part>)
    ensures |parts| == |runs| && forall i :: 0 <= i < |runs| ==> parts[i] == Part(text(runs[i]), Size(runs[i]))
  {
    seq(|runs|, i requires 0 <= i < |runs| => Part(text(runs[i]), Size(runs[i])))
  }

  lemma {:induction false} SumOfRuns(runs: seq<Run>, text: Run -> string)
    ensures Sum(Parts(runs, text)) == Total(runs)
    decreases |runs|
  {
    if runs != [] {
      var n := |runs| - 1;
      var parts := Parts(runs, text);
      SumOfRuns(runs[..n], text);
      SumSplit(parts, n);
      assert parts[..n] == Parts(runs[..n], text);
      assert parts[n..] == [parts[n]];
      assert Sum([parts[n]]) == parts[n].count + Sum([]);
    }
  }

  /** The maximal runs of the items; there is one such list only. */
  ghost predicate RunsOf(runs: seq<Run>, items: seq<Item>)
  {
    Maximal(runs) && (forall x :: Covers(runs, x) <==> x in items) && Total(runs) == |Distinct(items)|
  }

  /** The text is the capped list of the items' runs. */
  ghost predicate Lists(out: string, items: seq<Item>, text: Run -> string, one: string, many: string)
  {
    exists runs :: RunsOf(runs, items) && out == CappedText(Parts(runs, text), one, many)
  }

  /** Behind the first `shown` runs as many items are counted as distinct ones are left. */
  lemma CountedRest(items: seq<Item>, runs: seq<Run>, text: Run -> string, shown: nat)
    requires RunsOf(runs, items) && shown <= |runs|
    ensures Sum(Parts(runs, text)[shown..]) == |Distinct(items)| - Total(runs[..shown])
  {
    hide Maximal, Covers, Sum, Distinct, Total;
    var parts := Parts(runs, text);
    SumSplit(parts, shown);
    SumOfRuns(runs, text);
    SumOfRuns(runs[..shown], text);
    assert parts[..shown] == Parts(runs[..shown], text);
  }

  // ------------------------------------------------------- 64-bit numbers

  predicate I64(n: int) { I64_MIN <= n <= I64_MAX }

  /** Keys and numbers have 64 bits, and so has the count of them. */
  predicate I64Items(items: seq<Item>)
  {
    |items| <= I64_MAX && forall x :: x in items ==> I64(x.key) && I64(x.number)
  }

  predicate I64Run(r: Run) { I64(r.key) && I64(r.first) && I64(r.last) }

  lemma RunsInRange(runs: seq<Run>, items: seq<Item>, i: nat)
    requires RunsOf(runs, items) && I64Items(items) && i < |runs|
    ensures I64Run(runs[i])
  {
    var r := runs[i];
    assert In(Item(r.key, r.first), r) && In(Item(r.key, r.last), r);
    assert Covers(runs, Item(r.key, r.first)) && Covers(runs, Item(r.key, r.last));
  }

  /** `ByteLen` of texts side by side. */
  lemma BytesOf(a: string, b: string, c: string, d: string)
    ensures ByteLen(a + b + c + d) == ByteLen(a) + ByteLen(b) + ByteLen(c) + ByteLen(d)
  {
    hide ByteLen;
    ByteLenAppend(a + b + c, d);
    ByteLenAppend(a + b, c);
    ByteLenAppend(a, b);
  }

  lemma DashBytes()
    ensures ByteLen("\U{2013}") == 3 && ByteLen("\U{2013}E") == 4
  {
    assert "\U{2013}"[..0] == "" && "\U{2013}E"[..1] == "\U{2013}";
  }

  lemma EpisodeBytes(r: Run)
    requires I64Run(r)
    ensures EpisodeText(r) != "" && ByteLen(EpisodeText(r)) <= 66
  {
    hide ByteLen, PadSigned;
    var key, first, last := PadSigned(r.key, 2), PadSigned(r.first, 2), PadSigned(r.last, 2);
    BytesOfI64(r.key, 2);
    BytesOfI64(r.first, 2);
    BytesOfI64(r.last, 2);
    BytesOf("S", key, "E", first);
    BytesOf("S" + key + "E" + first, "\U{2013}E", last, "");
    assert "S" + key + "E" + first + "\U{2013}E" + last + "" == "S" + key + "E" + first + "\U{2013}E" + last;
    BytesOfChars("S");
    BytesOfChars("E");
    BytesOfChars("");
    DashBytes();
  }

  lemma SeasonBytes(r: Run)
    requires I64Run(r)
    ensures SeasonText(r) != "" && ByteLen(SeasonText(r)) <= 66
  {
    hide ByteLen, PadSigned;
    var first, last := PadSigned(r.first, 1), PadSigned(r.last, 1);
    BytesOfI64(r.first, 1);
    BytesOfI64(r.last, 1);
    BytesOf(first, "\U{2013}", last, "");
    assert first + "\U{2013}" + last + "" == first + "\U{2013}" + last;
    BytesOfChars("");
    DashBytes();
  }

  /** The longest text for 64-bit numbers: the list, ` and `, 19 digits, ` more ` and the noun. */
  const TEXT_MAX := EXTRA_MAX + 38

  /** Short parts stay within the cap, and the text within `TEXT_MAX`, as long as the count of the rest has 64 bits. */
  lemma ShortParts(parts: seq<Part>, one: string, many: string)
    requires forall p :: p in parts ==> p.text != "" && ByteLen(p.text) <= EXTRA_MAX
    requires ByteLen(one) <= 8 && ByteLen(many) <= 8 && 0 <= Sum(parts[Shown(parts, 0)..]) <= I64_MAX
    ensures ByteLen(Joined(parts[..Shown(parts, 0)])) <= EXTRA_MAX
    ensures ByteLen(CappedText(parts, one, many)) <= TEXT_MAX
  {
    hide ByteLen, Sum, Joined, PadSigned, Shown, Fits;
    var shown := Shown(parts, 0);
    var list, rest := Joined(parts[..shown]), Sum(parts[shown..]);
    CappedCounts(parts);
    if shown == 1 { OneJoined(parts); }
    BytesOfI64(rest, 1);
    BytesOfChars(" and ");
    BytesOfChars(" more ");
    BytesOf(" and ", PadSigned(rest, 1), " more ", Noun(rest, one, many));
    ByteLenAppend(list, " and " + PadSigned(rest, 1) + " more " + Noun(rest, one, many));
    assert list + "" == list;
  }

  lemma OneJoined(parts: seq<Part>)
    requires |parts| >= 1
    ensures Joined(parts[..1]) == parts[0].text
  {
    assert parts[..1][..0] == [];
  }

  lemma {:induction false} InsertedLength(x: Item, s: seq<Item>)
    ensures |InsertDistinct(x, s)| <= |s| + 1
    decreases |s|
  {
    if s != [] { InsertedLength(x, s[1..]); }
  }

  lemma {:induction false} DistinctLength(items: seq<Item>)
    ensures |Distinct(items)| <= |items|
    decreases |items|
  {
    if items != [] {
      DistinctLength(items[1..]);
      InsertedLength(items[0], Distinct(items[1..]));
    }
  }

  lemma {:induction false} TotalOfPart(runs: seq<Run>, n: nat)
    requires Maximal(runs) && n <= |runs|
    ensures 0 <= Total(runs[..n]) <= Total(runs)
    decreases |runs|, n
  {
    if runs != [] {
      var m := |runs| - 1;
      TotalOfPart(runs[..m], if n <= m then n else m);
      if n <= m { assert runs[..m][..n] == runs[..n]; } else { assert runs[..n] == runs; }
    }
  }

  /**
   * The lists of 64-bit numbers never pass `EXTRA_MAX`, and their texts never `TEXT_MAX`, which is well under the
   * 1024 characters of a Discord field.
   */
  lemma ListsFit(runs: seq<Run>, items: seq<Item>, text: Run -> string, one: string, many: string)
    requires RunsOf(runs, items) && I64Items(items) && ByteLen(one) <= 8 && ByteLen(many) <= 8
    requires forall r :: I64Run(r) ==> text(r) != "" && ByteLen(text(r)) <= 66
    ensures var parts := Parts(runs, text);
            ByteLen(Joined(parts[..Shown(parts, 0)])) <= EXTRA_MAX
            && |CappedText(parts, one, many)| <= ByteLen(CappedText(parts, one, many)) <= TEXT_MAX < 1024
  {
    hide ByteLen, Sum, Joined, Shown, Total, Distinct, Covers, I64Run, CappedText;
    var parts := Parts(runs, text);
    forall p | p in parts ensures p.text != "" && ByteLen(p.text) <= EXTRA_MAX {
      var i :| 0 <= i < |parts| && parts[i] == p;
      RunsInRange(runs, items, i);
    }
    CountedRest(items, runs, text, Shown(parts, 0));
    TotalOfPart(runs, Shown(parts, 0));
    DistinctLength(items);
    ShortParts(parts, one, many);
    BytesOfChars(CappedText(parts, one, many));
  }

  method Listed(items: seq<Item>, text: Run -> string, one: string, many: string) returns (out: string)
    ensures Lists(out, items, text, one, many)
  {
    hide Maximal, Covers, CappedText, Distinct, Total;
    var list := Runs(items);
    out := Capped(Parts(list, text), one, many);
    assert RunsOf(list, items);
  }

  /** `episode_ranges`: items are a season and an episode number. */
  method EpisodeRanges(episodes: seq<Item>) returns (out: string)
    ensures Lists(out, episodes, EpisodeText, "episode", "episodes")
    ensures I64Items(episodes) ==> |out| <= ByteLen(out) <= TEXT_MAX
  {
    hide RunsOf, ByteLen, CappedText, I64Items;
    out := Listed(episodes, EpisodeText, "episode", "episodes");
    if I64Items(episodes) { EpisodesFit(out, episodes); }
  }

  lemma EpisodesFit(out: string, episodes: seq<Item>)
    requires Lists(out, episodes, EpisodeText, "episode", "episodes") && I64Items(episodes)
    ensures |out| <= ByteLen(out) <= TEXT_MAX
  {
    hide RunsOf, ByteLen, CappedText, I64Items, I64Run;
    var runs :| RunsOf(runs, episodes) && out == CappedText(Parts(runs, EpisodeText), "episode", "episodes");
    BytesOfChars("episode");
    BytesOfChars("episodes");
    forall r | I64Run(r) ensures EpisodeText(r) != "" && ByteLen(EpisodeText(r)) <= 66 { EpisodeBytes(r); }
    ListsFit(runs, episodes, EpisodeText, "episode", "episodes");
  }

  /** The items of `season_ranges`: one key for every season number. */
  function Numbered(seasons: seq<int>): (items: seq<Item>)
    ensures |items| == |seasons| && forall i :: 0 <= i < |seasons| ==> items[i] == Item(0, seasons[i])
  {
    seq(|seasons|, i requires 0 <= i < |seasons| => Item(0, seasons[i]))
  }

  /** `season_ranges`. */
  method SeasonRanges(seasons: seq<int>) returns (out: string)
    ensures Lists(out, Numbered(seasons), SeasonText, "season", "seasons")
    ensures I64Items(Numbered(seasons)) ==> |out| <= ByteLen(out) <= TEXT_MAX
  {
    hide RunsOf, ByteLen, CappedText, I64Items;
    out := Listed(Numbered(seasons), SeasonText, "season", "seasons");
    if I64Items(Numbered(seasons)) { SeasonsFit(out, seasons); }
  }

  lemma SeasonsFit(out: string, seasons: seq<int>)
    requires Lists(out, Numbered(seasons), SeasonText, "season", "seasons") && I64Items(Numbered(seasons))
    ensures |out| <= ByteLen(out) <= TEXT_MAX
  {
    hide RunsOf, ByteLen, CappedText, I64Items, I64Run;
    var items := Numbered(seasons);
    var runs :| RunsOf(runs, items) && out == CappedText(Parts(runs, SeasonText), "season", "seasons");
    BytesOfChars("season");
    BytesOfChars("seasons");
    forall r | I64Run(r) ensures SeasonText(r) != "" && ByteLen(SeasonText(r)) <= 66 { SeasonBytes(r); }
    ListsFit(runs, items, SeasonText, "season", "seasons");
  }

  /** The text is determined by the set of items. */
  lemma ListsOnce(a: string, b: string, items: seq<Item>, items': seq<Item>, text: Run -> string, one: string,
      many: string)
    requires Lists(a, items, text, one, many) && Lists(b, items', text, one, many)
    requires forall x :: x in items <==> x in items'
    ensures a == b
  {
    hide Maximal, Covers, CappedText, Distinct, Total;
    var runs :| RunsOf(runs, items) && a == CappedText(Parts(runs, text), one, many);
    var runs' :| RunsOf(runs', items') && b == CappedText(Parts(runs', text), one, many);
    OneRunList(runs, runs');
  }
}
