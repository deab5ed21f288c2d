/** The image cache's maintenance: expiry, idleness and the high-water trim (`backend-rs/src/imagecache.rs`). */
module ImageTrim {
  import opened Text
  import opened Sorting

  /** What `metadata` says of a cached file; an access time of 0 isn't kept by the file system. */
  datatype Stat = Stat(size: nat, accessed: int, modified: int)

  /** A cache directory: one that can't be read, an empty one, or its first file with the expiry its name gives. */
  datatype Raw =
    | Unreadable(dir: string) | Empty(dir: string) | File(dir: string, expiresAt: Option<int>, stat: Option<Stat>)

  datatype Entry = Entry(dir: string, size: nat, accessedAt: int)

  /** An unexpired entry whose file can be read. */
  predicate Fresh(r: Raw, now: int)
  {
    r.File? && r.expiresAt.Some? && now <= r.expiresAt.value && r.stat.Some?
  }

  function EntryOf(r: Raw): Entry
    requires r.File? && r.stat.Some?
  {
    var s := r.stat.value;
    Entry(r.dir, s.size, if s.accessed == 0 then s.modified else s.accessed)
  }

  function FreshEntries(raws: seq<Raw>, now: int): seq<Entry>
  {
    if raws == [] then []
    else
      var r := raws[|raws| - 1];
      FreshEntries(raws[..|raws| - 1], now) + if Fresh(r, now) then [EntryOf(r)] else []
  }

  /** The directories `list_entries` removes: readable, and expired, empty or without a readable file. */
  function Invalid(raws: seq<Raw>, now: int): seq<string>
  {
    if raws == [] then []
    else
      var r := raws[|raws| - 1];
      Invalid(raws[..|raws| - 1], now) + if !r.Unreadable? && !Fresh(r, now) then [r.dir] else []
  }

  /** `list_entries(removeInvalid)`. */
  method ListEntries(raws: seq<Raw>, now: int, removeInvalid: bool) returns (result: seq<Entry>, removed: seq<string>)
    ensures result == FreshEntries(raws, now)
    ensures removed == if removeInvalid then Invalid(raws, now) else []
  {
    result, removed := [], [];
    for i := 0 to |raws|
      invariant result == FreshEntries(raws[..i], now)
      invariant removed == if removeInvalid then Invalid(raws[..i], now) else []
    {
      assert raws[..i + 1][..i] == raws[..i];
      match raws[i]
      case Unreadable(_) =>
      case Empty(dir) => if removeInvalid { removed := removed + [dir]; }
      case File(dir, expiresAt, stat) =>
        if expiresAt.None? || now > expiresAt.value || stat.None? {
          if removeInvalid { removed := removed + [dir]; }
        } else {
          result := result + [EntryOf(raws[i])];
        }
    }
    assert raws[..|raws|] == raws;
  }

  /** The unexpired readable entries are exactly the listed ones. */
  lemma {:induction false} FreshMembers(raws: seq<Raw>, now: int)
    ensures forall e :: e in FreshEntries(raws, now) <==> exists r :: r in raws && Fresh(r, now) && e == EntryOf(r)
    decreases |raws|
  {
    if raws != [] {
      FreshMembers(raws[..|raws| - 1], now);
      assert raws == raws[..|raws| - 1] + [raws[|raws| - 1]];
    }
  }

  /**
   * The listing, directory by directory: an unexpired readable file is listed with its size and its access time, or
   * its modification time where the file system keeps none; what else can be read is invalid.
   */
  lemma ListedOneByOne(raws: seq<Raw>, r: Raw, now: int)
    ensures FreshEntries([], now) == [] && Invalid([], now) == []
    ensures var listed := r.File? && r.expiresAt.Some? && r.expiresAt.value >= now && r.stat.Some?;
            FreshEntries(raws + [r], now) == FreshEntries(raws, now) + (if listed then [Entry(r.dir, r.stat.value.size,
              if r.stat.value.accessed != 0 then r.stat.value.accessed else r.stat.value.modified)] else [])
            && Invalid(raws + [r], now) == Invalid(raws, now) + if listed || r.Unreadable? then [] else [r.dir]
  {
    assert (raws + [r])[..|raws|] == raws;
  }

  function Dirs(entries: seq<Entry>): seq<string>
  {
    if entries == [] then [] else Dirs(entries[..|entries| - 1]) + [entries[|entries| - 1].dir]
  }

  /** The directories that can be read. */
  function Readable(raws: seq<Raw>): seq<string>
  {
    if raws == [] then []
    else Readable(raws[..|raws| - 1]) + if raws[|raws| - 1].Unreadable? then [] else [raws[|raws| - 1].dir]
  }

  lemma DirsAppend(entries: seq<Entry>, e: Entry)
    ensures Dirs(entries + [e]) == Dirs(entries) + [e.dir]
  {
    assert (entries + [e])[..|entries|] == entries;
  }

  /** Every readable directory is listed or invalid, not both. */
  lemma {:induction false} ListedOrInvalid(raws: seq<Raw>, now: int)
    ensures multiset(Dirs(FreshEntries(raws, now))) + multiset(Invalid(raws, now)) == multiset(Readable(raws))
    decreases |raws|
  {
    hide Fresh, Dirs;
    NoDirs();
    if raws != [] {
      var head, r := raws[..|raws| - 1], raws[|raws| - 1];
      ListedOrInvalid(head, now);
      FreshIsReadable(r, now);
      OneMoreDir(Dirs(FreshEntries(head, now)), Invalid(head, now), Readable(head), r.dir);
      if Fresh(r, now) {
        DirsAppend(FreshEntries(head, now), EntryOf(r));
      } else {
        assert FreshEntries(raws, now) == FreshEntries(head, now);
      }
    }
  }

  lemma OneMoreDir(a: seq<string>, b: seq<string>, whole: seq<string>, d: string)
    requires multiset(a) + multiset(b) == multiset(whole)
    ensures multiset(a + [d]) + multiset(b) == multiset(whole + [d])
    ensures multiset(a) + multiset(b + [d]) == multiset(whole + [d])
    ensures a + [] == a && b + [] == b && whole + [] == whole
  {
  }

  lemma NoDirs()
    ensures Dirs([]) == []
  {
  }

  lemma FreshIsReadable(r: Raw, now: int)
    ensures Fresh(r, now) ==> r.File? && r.stat.Some?
  {
  }

  lemma {:induction false} DirsSplit(a: seq<Entry>, b: seq<Entry>)
    ensures Dirs(a + b) == Dirs(a) + Dirs(b)
    decreases |b|
  {
    if b == [] {
      assert a + b == a;
    } else {
      DirsSplit(a, b[..|b| - 1]);
      assert (a + b)[..|a + b| - 1] == a + b[..|b| - 1];
    }
  }

  lemma {:induction false} DirsOfInsert(x: Entry, s: seq<Entry>, key: Entry -> int)
    ensures multiset(Dirs(InsertSorted(x, s, key))) == multiset(Dirs(s)) + multiset{x.dir}
    decreases |s|
  {
    hide Dirs;
    NoDirs();
    DirsAppend([], x);
    assert [] + [x] == [x];
    if s != [] {
      DirsAppend([], s[0]);
      assert [] + [s[0]] == [s[0]] && s == [s[0]] + s[1..];
      DirsSplit([s[0]], s[1..]);
      if key(s[0]) <= key(x) {
        DirsOfInsert(x, s[1..], key);
        DirsSplit([s[0]], InsertSorted(x, s[1..], key));
      } else {
        DirsSplit([x], s);
      }
    }
  }

  /** Sorting keeps the directories. */
  lemma {:induction false} DirsOfSorted(s: seq<Entry>, key: Entry -> int)
    ensures multiset(Dirs(SortBy(s, key))) == multiset(Dirs(s))
    decreases |s|
  {
    hide InsertSorted;
    if s != [] {
      DirsOfSorted(s[..|s| - 1], key);
      DirsOfInsert(s[|s| - 1], SortBy(s[..|s| - 1], key), key);
    }
  }

  function Sum(entries: seq<Entry>): int
  {
    if entries == [] then 0 else entries[0].size + Sum(entries[1..])
  }

  lemma {:induction false} SumAppend(a: seq<Entry>, b: seq<Entry>)
    ensures Sum(a + b) == Sum(a) + Sum(b)
    decreases |a|
  {
    if a == [] {
      assert a + b == b;
    } else {
      SumAppend(a[1..], b);
      assert (a + b)[1..] == a[1..] + b;
    }
  }

  lemma {:induction false} SumOfInsert(x: Entry, s: seq<Entry>, key: Entry -> int)
    ensures Sum(InsertSorted(x, s, key)) == Sum(s) + x.size
    decreases |s|
  {
    if s == [] {
      assert Sum([x]) == x.size + Sum([]);
    } else if key(s[0]) <= key(x) {
      SumOfInsert(x, s[1..], key);
    } else {
      assert ([x] + s)[1..] == s;
    }
  }

  /** Sorting keeps the sum. */
  lemma {:induction false} SumOfSorted(s: seq<Entry>, key: Entry -> int)
    ensures Sum(SortBy(s, key)) == Sum(s)
    decreases |s|
  {
    hide Sum, InsertSorted;
    if s != [] {
      var init, last := s[..|s| - 1], s[|s| - 1];
      SumOfSorted(init, key);
      SumOfInsert(last, SortBy(init, key), key);
      SumAppend(init, [last]);
      SumOfOne(last);
      assert s == init + [last];
    }
  }

  lemma SumOfOne(e: Entry)
    ensures Sum([e]) == e.size
  {
    assert Sum([e]) == e.size + Sum([]);
  }

  /** The entries used recently enough. */
  function Active(entries: seq<Entry>, now: int, idle: int): seq<Entry>
  {
    if entries == [] then []
    else
      var e := entries[|entries| - 1];
      Active(entries[..|entries| - 1], now, idle) + if now - e.accessedAt > idle then [] else [e]
  }

  /** The entries unused for too long. */
  function Idle(entries: seq<Entry>, now: int, idle: int): seq<Entry>
  {
    if entries == [] then []
    else
      var e := entries[|entries| - 1];
      Idle(entries[..|entries| - 1], now, idle) + if now - e.accessedAt > idle then [e] else []
  }

  lemma {:induction false} ActiveOrIdle(entries: seq<Entry>, now: int, idle: int)
    ensures multiset(Dirs(Active(entries, now, idle))) + multiset(Dirs(Idle(entries, now, idle)))
        == multiset(Dirs(entries))
    decreases |entries|
  {
    hide Dirs;
    NoDirs();
    if entries != [] {
      var head, e := entries[..|entries| - 1], entries[|entries| - 1];
      ActiveOrIdle(head, now, idle);
      assert entries == head + [e];
      DirsAppend(head, e);
      DirsAppend(Active(head, now, idle), e);
      DirsAppend(Idle(head, now, idle), e);
      OneMoreDir(Dirs(Active(head, now, idle)), Dirs(Idle(head, now, idle)), Dirs(head), e.dir);
      SplitStep(entries, now, idle);
    }
  }

  /** The last entry goes to one of the two lists. */
  lemma SplitStep(entries: seq<Entry>, now: int, idle: int)
    requires entries != []
    ensures var head, e := entries[..|entries| - 1], entries[|entries| - 1];
            Active(entries, now, idle) == Active(head, now, idle) + (if now - e.accessedAt > idle then [] else [e])
            && Idle(entries, now, idle) == Idle(head, now, idle) + (if now - e.accessedAt > idle then [e] else [])
            && Active(head, now, idle) + [] == Active(head, now, idle)
            && Idle(head, now, idle) + [] == Idle(head, now, idle)
  {
  }

  lemma {:induction false} ActiveMembers(entries: seq<Entry>, now: int, idle: int)
    ensures forall e :: e in Active(entries, now, idle) <==> e in entries && now - e.accessedAt <= idle
    decreases |entries|
  {
    if entries != [] {
      ActiveMembers(entries[..|entries| - 1], now, idle);
      assert entries == entries[..|entries| - 1] + [entries[|entries| - 1]];
    }
  }

  function AccessTime(): Entry -> int { (e: Entry) => e.accessedAt }

  /**
   * `maintain_cache` on what was listed at `listed`. At or below the high-water mark every active entry stays;
   * above it the least recently used ones go until the target holds, and not one more than that takes. Every
   * readable directory is kept or removed once: invalid, idle or trimmed.
   */
  method MaintainCache(raws: seq<Raw>, listed: int, now: int, idle: int, highWater: int, trimTarget: int)
    returns (removed: seq<string>, kept: seq<Entry>, used: int, ghost trimmed: seq<Entry>)
    ensures used == Sum(kept)
    ensures forall e :: e in kept ==>
      now - e.accessedAt <= idle && exists r :: r in raws && Fresh(r, listed) && e == EntryOf(r)
    ensures var active := Active(FreshEntries(raws, listed), now, idle);
            multiset(trimmed) + multiset(kept) == multiset(active)
            && (Sum(active) <= highWater ==> kept == active)
            && (Sum(active) > highWater ==> used <= trimTarget || kept == [])
    ensures forall gone, e :: gone in trimmed && e in kept ==> gone.accessedAt <= e.accessedAt
    ensures trimmed != [] ==> trimmed[|trimmed| - 1].size + used > trimTarget
    ensures removed == Invalid(raws, listed) + Dirs(Idle(FreshEntries(raws, listed), now, idle)) + Dirs(trimmed)
    ensures multiset(removed) + multiset(Dirs(kept)) == multiset(Readable(raws))
  {
    hide Fresh, FreshEntries, Active, Idle, Invalid, Readable, Dirs, Sum, SortBy;
    var entries, invalid := ListEntries(raws, listed, true);
    var remaining, idleOnes;
    remaining, used, idleOnes := DropIdle(entries, now, idle);
    ActiveMembers(entries, now, idle);
    FreshMembers(raws, listed);
    ListedOrInvalid(raws, listed);
    ActiveOrIdle(entries, now, idle);
    var cut: seq<string>;
    kept, trimmed, cut := remaining, [], [];
    NoDirs();
    if used > highWater {
      SumOfSorted(remaining, AccessTime());
      DirsOfSorted(remaining, AccessTime());
      kept, used, cut, trimmed := Trim(SortBy(remaining, AccessTime()), used, trimTarget);
      SortBySorts(remaining, AccessTime());
      SameMembers(trimmed, kept, remaining);
      DirsSplit(trimmed, kept);
    }
    removed := invalid + idleOnes + cut;
  }

  lemma SameMembers(a: seq<Entry>, b: seq<Entry>, whole: seq<Entry>)
    requires multiset(a + b) == multiset(whole)
    ensures multiset(a) + multiset(b) == multiset(whole) && forall e :: e in b ==> e in whole
  {
    SamePlaces(a + b, whole);
  }

  lemma NothingIdle(now: int, idle: int)
    ensures Active([], now, idle) == [] && Idle([], now, idle) == [] && Sum([]) == 0
  {
  }

  lemma SumTail(entries: seq<Entry>, i: nat)
    requires i < |entries|
    ensures Sum(entries[i..]) == entries[i].size + Sum(entries[i + 1..])
  {
    assert entries[i..][1..] == entries[i + 1..];
  }

  /** The sum of the listed sizes, and the loop that removes idle entries. */
  method DropIdle(entries: seq<Entry>, now: int, idle: int)
    returns (remaining: seq<Entry>, used: int, removed: seq<string>)
    ensures remaining == Active(entries, now, idle) && used == Sum(remaining)
        && removed == Dirs(Idle(entries, now, idle))
  {
    hide Dirs, Active, Idle, Sum;
    NoDirs();
    NothingIdle(now, idle);
    used := Sum(entries);
    assert entries[0..] == entries && entries[..0] == [];
    remaining, removed := [], [];
    for i := 0 to |entries|
      invariant remaining == Active(entries[..i], now, idle) && removed == Dirs(Idle(entries[..i], now, idle))
      invariant used == Sum(remaining) + Sum(entries[i..])
    {
      assert entries[..i + 1][..i] == entries[..i];
      var entry := entries[i];
      SplitStep(entries[..i + 1], now, idle);
      SumTail(entries, i);
      if now - entry.accessedAt > idle {
        DirsAppend(Idle(entries[..i], now, idle), entry);
        removed := removed + [entry.dir];
        used := used - entry.size;
      } else {
        SumAppend(remaining, [entry]);
        SumOfOne(entry);
        remaining := remaining + [entry];
      }
    }
    assert entries[..|entries|] == entries && entries[|entries|..] == [];
  }

  /** The loop above the high-water mark: from the front of the sorted entries until the target holds. */
  method Trim(sorted: seq<Entry>, total: int, trimTarget: int)
    returns (kept: seq<Entry>, used: int, removed: seq<string>, ghost trimmed: seq<Entry>)
    requires total == Sum(sorted)
    ensures trimmed + kept == sorted && used == Sum(kept) && (used <= trimTarget || kept == [])
    ensures trimmed != [] ==> trimmed[|trimmed| - 1].size + used > trimTarget
    ensures SortedBy(sorted, AccessTime()) ==>
      forall gone, e :: gone in trimmed && e in kept ==> gone.accessedAt <= e.accessedAt
    ensures removed == Dirs(trimmed)
  {
    hide Dirs, Sum, SortedBy;
    NoDirs();
    used, removed := total, [];
    var i := 0;
    assert sorted[0..] == sorted && sorted[..0] == [];
    while i < |sorted|
      invariant i <= |sorted| && used == Sum(sorted[i..]) && removed == Dirs(sorted[..i])
      invariant i > 0 ==> sorted[i - 1].size + used > trimTarget
    {
      if used <= trimTarget { break; }
      SumTail(sorted, i);
      assert sorted[..i + 1] == sorted[..i] + [sorted[i]];
      DirsAppend(sorted[..i], sorted[i]);
      removed := removed + [sorted[i].dir];
      used := used - sorted[i].size;
      i := i + 1;
    }
    if i == |sorted| { assert sorted[i..] == []; }
    kept, trimmed := sorted[i..], sorted[..i];
    if SortedBy(sorted, AccessTime()) { FrontIsOlder(sorted, i); }
  }

  lemma FrontIsOlder(sorted: seq<Entry>, i: nat)
    requires i <= |sorted| && SortedBy(sorted, AccessTime())
    ensures forall gone, e :: gone in sorted[..i] && e in sorted[i..] ==> gone.accessedAt <= e.accessedAt
  {
    forall gone, e | gone in sorted[..i] && e in sorted[i..] ensures gone.accessedAt <= e.accessedAt {
      var a :| 0 <= a < i && sorted[a] == gone;
      var b :| i <= b < |sorted| && sorted[b] == e;
      assert AccessTime()(sorted[a]) <= AccessTime()(sorted[b]);
    }
  }
}
