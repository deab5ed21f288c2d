/** The stamp-based DNS cache (`backend-rs/src/dnscache.rs`); times in milliseconds. */
module DnsCache {
  import opened Text
  import Lru
  import Sorting

  const MAX_ENTRIES := 500
  const DEFAULT_TTL := 300_000

  /** The cache's TTL settings: `forceMinTtl` (0 when unset) and a positive `forceMaxTtl`. */
  datatype Ttl = Ttl(min: nat, max: Option<nat>)
  {
    /** `Ttl::entry`: for an answer without a TTL. */
    function Entry(): (r: nat)
      ensures r >= min && r >= DEFAULT_TTL && (r == min || r == DEFAULT_TTL)
    {
      if min > DEFAULT_TTL then min else DEFAULT_TTL
    }

    /** `Ttl::fallback`: for the native lookup's answer. The floor wins over a lower ceiling. */
    function Fallback(): (r: nat)
      ensures r >= min && (max.None? ==> r == min)
      ensures max.Some? && max.value <= min ==> r == min
      ensures max.Some? && max.value > min ==>
        if max.value <= 60_000 then r == max.value else r >= 60_000 && (r == min || r == 60_000)
    {
      var floor := if min > 60_000 then min else 60_000;
      var ttl := if max.None? then 0 else if floor < max.value then floor else max.value;
      if min > ttl then min else ttl
    }
  }

  datatype Ip = Ip4(bits: nat) | Ip6(bits: nat)

  datatype Entry = Entry(ipv4: seq<Ip>, ipv6: seq<Ip>, active: Ip, stored: int, ttl: int,
                         hits: nat, misses: nat, used: nat)

  type Entries = map<string, Entry>

  datatype Cached = Fresh(found: seq<Ip>) | Stale(found: seq<Ip>) | Missing

  /** A host as `entries()` prints it. */
  datatype Item = Item(host: string, ipv4: nat, ipv6: nat, active: Ip, age: nat, ttl: nat, hits: nat, misses: nat)

  /** `saturating_sub`. */
  function Left(ttl: int, age: nat): nat { if ttl > age then ttl - age else 0 }

  function ItemOf(host: string, e: Entry, now: int): Item
  {
    var age := Age(now, e.stored);
    Item(host, |e.ipv4|, |e.ipv6|, e.active, age, Left(e.ttl, age), e.hits, e.misses)
  }

  /** Each family's addresses are kept apart. */
  predicate ByFamily(e: Entry) { (forall ip :: ip in e.ipv4 ==> ip.Ip4?) && forall ip :: ip in e.ipv6 ==> ip.Ip6? }

  /** What is printed of a host: its address counts and counters, its age, and the time its TTL leaves. */
  lemma ItemSays(host: string, e: Entry, now: int)
    ensures var item := ItemOf(host, e, now);
            item.host == host && item.ipv4 == |e.ipv4| && item.ipv6 == |e.ipv6| && item.active == e.active
            && item.hits == e.hits && item.misses == e.misses
            && item.age == (if now - e.stored > 0 then now - e.stored else 0)
            && item.ttl == if e.ttl - item.age > 0 then e.ttl - item.age else 0
  {
  }

  /** `addresses`. */
  function Addresses(e: Entry, ipv4Only: bool): seq<Ip> { if ipv4Only then e.ipv4 else e.ipv4 + e.ipv6 }

  /** `saturating_duration_since`. */
  function Age(now: int, stored: int): nat { if now > stored then now - stored else 0 }

  /** The entries the LRU's own TTL still keeps. */
  function Unexpired(entries: Entries, ttl: Ttl, now: int): Entries
  {
    if ttl.max.None? then entries
    else map k | k in entries && Age(now, entries[k].stored) < ttl.max.value :: entries[k]
  }

  // ------------------------------------------- stamps against the LRU list

  /** Stamps rise along the list. */
  ghost predicate Rising(order: seq<string>, entries: Entries)
    requires forall k :: k in order ==> k in entries
  {
    order == [] ||
    ((forall k :: k in order[1..] ==> entries[order[0]].used < entries[k].used) && Rising(order[1..], entries))
  }

  /** The list has exactly the cached hosts, once each, and the stamps rise along it up to the clock. */
  ghost predicate Listed(order: seq<string>, entries: Entries, clock: nat)
  {
    Lru.Unique(order) && (forall k :: k in order <==> k in entries) && Rising(order, entries)
    && forall k :: k in entries ==> entries[k].used <= clock
  }

  lemma {:induction false} RisingKeep(order: seq<string>, entries: Entries, kept: set<string>, entries': Entries)
    requires Lru.Unique(order) && (forall k :: k in order ==> k in entries) && Rising(order, entries)
    requires forall k :: k in kept && k in order ==> k in entries' && entries'[k].used == entries[k].used
    ensures forall k :: k in Lru.Keep(order, kept) ==> k in entries'
    ensures Rising(Lru.Keep(order, kept), entries')
    decreases |order|
  {
    Lru.KeepKeys(order, kept);
    if order != [] {
      var rest := order[1..];
      assert Lru.Unique(rest);
      Lru.KeepKeys(rest, kept);
      RisingKeep(rest, entries, kept, entries');
    }
  }

  lemma {:induction false} WithoutIsKeep(order: seq<string>, host: string, kept: set<string>)
    requires forall k :: k in order ==> (k in kept <==> k != host)
    ensures Lru.Without(order, host) == Lru.Keep(order, kept)
    decreases |order|
  {
    if order != [] {
      assert order[0] in order;
      WithoutIsKeep(order[1..], host, kept);
    }
  }

  lemma ListedKeep(order: seq<string>, entries: Entries, clock: nat, entries': Entries)
    requires Listed(order, entries, clock)
    requires entries'.Keys <= entries.Keys && forall k :: k in entries' ==> entries'[k].used == entries[k].used
    ensures Listed(Lru.Keep(order, entries'.Keys), entries', clock)
  {
    Lru.KeepKeys(order, entries'.Keys);
    RisingKeep(order, entries, entries'.Keys, entries');
  }

  lemma ListedWithout(order: seq<string>, entries: Entries, clock: nat, host: string)
    requires Listed(order, entries, clock)
    ensures Listed(Lru.Without(order, host), entries - {host}, clock)
  {
    ListedKeep(order, entries, clock, entries - {host});
    WithoutIsKeep(order, host, (entries - {host}).Keys);
  }

  lemma {:induction false} RisingAppend(order: seq<string>, entries: Entries, host: string)
    requires forall k :: k in order ==> k in entries && k != host
    requires host in entries && Rising(order, entries)
    requires forall k :: k in order ==> entries[k].used < entries[host].used
    ensures Rising(order + [host], entries)
    decreases |order|
  {
    if order != [] {
      assert order[0] in order;
      assert (order + [host])[1..] == order[1..] + [host];
      RisingAppend(order[1..], entries, host);
    }
  }

  lemma RisingSame(order: seq<string>, entries: Entries, entries': Entries)
    requires Lru.Unique(order) && (forall k :: k in order ==> k in entries) && Rising(order, entries)
    requires forall k :: k in order ==> k in entries' && entries'[k].used == entries[k].used
    ensures Rising(order, entries')
    decreases |order|
  {
    if order != [] {
      assert order[0] in order && Lru.Unique(order[1..]);
      RisingSame(order[1..], entries, entries');
    }
  }

  /** A host put behind the others with the newest stamp. */
  lemma ListedAppend(order: seq<string>, entries: Entries, clock: nat, host: string, e: Entry)
    requires Listed(order, entries, clock) && host !in order && e.used == clock + 1
    ensures Listed(order + [host], entries[host := e], clock + 1)
  {
    RisingSame(order, entries, entries[host := e]);
    RisingAppend(order, entries[host := e], host);
  }

  lemma ListedTouch(order: seq<string>, entries: Entries, clock: nat, host: string, e: Entry)
    requires Listed(order, entries, clock) && e.used == clock + 1
    ensures Listed(Lru.Touch(order, host), entries[host := e], clock + 1)
  {
    hide Rising, Lru.Unique, Lru.Without;
    ListedWithout(order, entries, clock, host);
    Lru.WithoutKeys(order, host);
    ListedAppend(Lru.Without(order, host), entries - {host}, clock, host, e);
    assert (entries - {host})[host := e] == entries[host := e];
  }

  lemma ListedCount(order: seq<string>, entries: Entries, clock: nat)
    requires Listed(order, entries, clock)
    ensures |entries| == |order|
  {
    Lru.UniqueCount(order);
    assert Lru.Keys(order) == entries.Keys;
  }

  /** The smallest stamp is the first of the list. */
  lemma OldestIsFirst(order: seq<string>, entries: Entries, clock: nat)
    requires Listed(order, entries, clock) && order != []
    ensures order[0] in entries
    ensures forall x :: x in entries && x != order[0] ==> entries[order[0]].used < entries[x].used
  {
    hide Lru.Unique;
    assert order == [order[0]] + order[1..];
    forall x | x in entries && x != order[0] ensures entries[order[0]].used < entries[x].used {
      assert x in order;
    }
  }

  lemma ListedFirst(order: seq<string>, entries: Entries, clock: nat)
    requires Listed(order, entries, clock) && order != []
    ensures Lru.Without(order, order[0]) == order[1..]
  {
    hide Rising;
    Lru.WithoutFirst(order);
  }

  // ---------------------------------------------------------------- the cache

  class Cache {
    var entries: Entries
    var hits: nat
    var misses: nat
    var failures: nat
    var ipv4Fallbacks: nat
    var clock: nat
    /** The hosts, the least recently stored or answered first. */
    ghost var order: seq<string>

    ghost predicate Valid()
      reads this
    {
      Listed(order, entries, clock) && |order| <= MAX_ENTRIES && forall k :: k in entries ==> ByFamily(entries[k])
    }

    constructor ()
      ensures Valid() && entries == map[] && order == []
    {
      entries, order := map[], [];
      hits, misses, failures, ipv4Fallbacks, clock := 0, 0, 0, 0, 0;
    }

    /** `purge_stale`: an entry past `forceMaxTtl` no longer exists. */
    method PurgeStale(ttl: Ttl, now: int)
      requires Valid()
      modifies this`entries, this`order
      ensures Valid() && entries == Unexpired(old(entries), ttl, now)
      ensures forall k :: k in entries <==>
        k in old(entries)
        && (ttl.max.Some? ==> ttl.max.value > 0 && now - old(entries)[k].stored < ttl.max.value)
      ensures forall k :: k in entries ==> entries[k] == old(entries)[k]
      ensures order == Lru.Keep(old(order), entries.Keys)
    {
      ListedKeep(order, entries, clock, Unexpired(entries, ttl, now));
      Lru.KeepKeys(order, Unexpired(entries, ttl, now).Keys);
      entries := Unexpired(entries, ttl, now);
      order := Lru.Keep(order, entries.Keys);
    }

    /** `insert`: into a full cache, a new host replaces the least recently stored or answered one. */
    method Insert(host: string, entry: Entry)
      requires Valid() && ByFamily(entry)
      modifies this`entries, this`order, this`clock
      ensures Valid() && clock == old(clock) + 1
      ensures order == Lru.Store(old(order), host, MAX_ENTRIES)
      ensures host in entries && entries[host] == entry.(used := clock)
      ensures forall k :: k in entries && k != host ==> k in old(entries) && entries[k] == old(entries)[k]
      ensures forall k :: k in old(entries) && k !in entries ==> |old(entries)| == MAX_ENTRIES && k == old(order)[0]
    {
      hide Listed, Lru.Without;
      InsertedOrder(order, entries, clock, host);
      if host !in entries && |entries| >= MAX_ENTRIES { EvictOldest(); }
      ListedTouch(order, entries, clock, host, entry.(used := clock + 1));
      clock := clock + 1;
      entries := entries[host := entry.(used := clock)];
      order := Lru.Touch(order, host);
    }

    /** The `min_by_key` of `insert`: the entry with the smallest stamp goes. */
    method EvictOldest()
      requires Valid() && order != []
      modifies this`entries, this`order
      ensures Valid() && order == old(order)[1..] && entries == old(entries) - {old(order)[0]}
    {
      hide Listed, Lru.Without;
      OldestIsFirst(order, entries, clock);
      ListedFirst(order, entries, clock);
      ListedWithout(order, entries, clock, order[0]);
      var oldest :| oldest in entries && forall x :: x in entries ==> entries[oldest].used <= entries[x].used;
      entries := entries - {oldest};
      order := order[1..];
    }

    /**
     * `cached`: a fresh answer is younger than its TTL; a stale one is past it but younger than a positive
     * `forceMaxTtl`; an entry past both is dropped.
     */
    method Lookup(host: string, ttl: Ttl, ipv4Only: bool, now: int) returns (r: Cached)
      requires Valid()
      modifies this
      ensures Valid() && clock == old(clock) + 1 && failures == old(failures)
      ensures var kept := Unexpired(old(entries), ttl, now);
              var list := Lru.Keep(old(order), kept.Keys);
              if host !in kept then r == Missing && entries == kept && order == list
              else
                var e := kept[host];
                var age := Age(now, e.stored);
                (r.Fresh? <==> age < e.ttl) && (r.Fresh? <==> e.ttl > 0 && now - e.stored < e.ttl)
                && (r.Stale? <==> e.ttl <= age && ttl.max.Some?)
                && (r.Fresh? || r.Stale? ==>
                      Answered(e, kept, host, entries, clock) && order == Lru.Touch(list, host))
                && (r.Missing? ==> entries == kept - {host} && order == Lru.Without(list, host))
      ensures r.Stale? ==> ttl.max.Some? && now - old(entries)[host].stored < ttl.max.value
      // every address of the entry in order, the IPv4 ones first, or these alone
      ensures !r.Missing? && ipv4Only ==> r.found == old(entries)[host].ipv4 && forall ip :: ip in r.found ==> ip.Ip4?
      ensures !r.Missing? && !ipv4Only ==>
        r.found == old(entries)[host].ipv4 + old(entries)[host].ipv6
        && forall i, j :: 0 <= i < j < |r.found| && r.found[j].Ip4? ==> r.found[i].Ip4?
      // every lookup of a kept host moves one counter, of the cache and of the entry
      ensures host !in Unexpired(old(entries), ttl, now) ==>
        hits == old(hits) && misses == old(misses) && ipv4Fallbacks == old(ipv4Fallbacks)
      ensures host in Unexpired(old(entries), ttl, now) && !r.Fresh? ==>
        hits == old(hits) && misses == old(misses) + 1 && ipv4Fallbacks == old(ipv4Fallbacks)
      ensures r.Fresh? ==>
        var fallback := ipv4Only && old(entries)[host].active.Ip6? && old(entries)[host].ipv4 != [];
        hits == old(hits) + (if fallback then 0 else 1) && misses == old(misses)
        && ipv4Fallbacks == old(ipv4Fallbacks) + if fallback then 1 else 0
      ensures !r.Missing? ==>
        entries[host].hits == old(entries)[host].hits + (hits - old(hits))
        && entries[host].misses == old(entries)[host].misses + (misses - old(misses))
    {
      hide Listed, Lru.Keep, Lru.Touch, Lru.Without, ByFamily, Addresses;
      PurgeStale(ttl, now);
      ListedTick(order, entries, clock);
      ghost var list, kept, time := order, entries, clock;
      clock := clock + 1;
      var used := clock;
      if host !in entries { return Missing; }
      TouchedWithin(list, kept, time, host);
      var entry := entries[host].(used := used);
      var age := Age(now, entry.stored);
      Given(entries[host], entry);
      if age < entry.ttl {
        var found := Addresses(entry, ipv4Only);
        if ipv4Only && entry.active.Ip6? && entry.ipv4 != [] {
          ListedTouch(list, kept, time, host, entry);
          entries := entries[host := entry];
          order := Lru.Touch(order, host);
          ipv4Fallbacks := ipv4Fallbacks + 1;
          return Fresh(found);
        }
        ListedTouch(list, kept, time, host, entry.(hits := entry.hits + 1));
        entries := entries[host := entry.(hits := entry.hits + 1)];
        order := Lru.Touch(order, host);
        hits := hits + 1;
        return Fresh(found);
      }
      if ttl.max.Some? && age < ttl.max.value {
        ListedTouch(list, kept, time, host, entry.(misses := entry.misses + 1));
        entries := entries[host := entry.(misses := entry.misses + 1)];
        order := Lru.Touch(order, host);
        misses := misses + 1;
        return Stale(Addresses(entry, ipv4Only));
      }
      misses := misses + 1;
      entries := entries - {host};
      order := Lru.Without(order, host);
      ListedWithout(list, kept, time, host);
      ListedTick(order, entries, time);
      return Missing;
    }

    /** `clear_host`. */
    method ClearHost(host: string)
      requires Valid()
      modifies this`entries, this`order
      ensures Valid()
      ensures host != "" ==> entries == old(entries) - {host} && order == Lru.Without(old(order), host)
      ensures host == "" ==> entries == old(entries) && order == old(order)
    {
      if host == "" { return; }
      ListedWithout(order, entries, clock, host);
      Lru.WithoutKeys(order, host);
      entries := entries - {host};
      order := Lru.Without(order, host);
    }

    /** `entries()`: after the purge a set-up cache gets, every host's item, the most recently used first. */
    method Print(setup: Option<Ttl>, now: int) returns (items: seq<Item>)
      requires Valid()
      modifies this`entries, this`order
      ensures Valid() && entries == if setup.Some? then Unexpired(old(entries), setup.value, now) else old(entries)
      ensures order == if setup.Some? then Lru.Keep(old(order), entries.Keys) else old(order)
      ensures |items| == |order| && forall i :: 0 <= i < |items| ==>
        var host := order[|order| - 1 - i]; host in entries && items[i] == ItemOf(host, entries[host], now)
    {
      hide Unexpired, Rising, Lru.Keep, Lru.Unique, ItemOf;
      if setup.Some? { PurgeStale(setup.value, now); }
      var hosts := Hosts();
      items := [];
      for i := 0 to |hosts|
        invariant |items| == i && forall j :: 0 <= j < i ==>
          hosts[j] in entries && items[j] == ItemOf(hosts[j], entries[hosts[j]], now)
      {
        assert hosts[i] in order;
        items := items + [ItemOf(hosts[i], entries[hosts[i]], now)];
      }
    }

    /** The order of `entries()`: most recently used first, by falling stamp. */
    method Hosts() returns (list: seq<string>)
      requires Valid()
      ensures |list| == |order| && forall i :: 0 <= i < |list| ==> list[i] == order[|order| - 1 - i]
    {
      var unsorted: seq<string> := [];
      var left := entries.Keys;
      while left != {}
        invariant left <= entries.Keys
        invariant forall k :: k in entries ==> multiset(unsorted)[k] == if k in left then 0 else 1
        invariant forall k :: k !in entries ==> k !in unsorted
        decreases left
      {
        var k :| k in left;
        unsorted := unsorted + [k];
        left := left - {k};
      }
      var known := entries;
      var falling := (k: string) => if k in known then Negated(known[k].used) else 0;
      list := Sorting.SortBy(unsorted, falling);
      ghost var reversed := Reversed(order);
      ReversedList(order, entries, clock, falling);
      assert multiset(unsorted) == multiset(reversed) by { SameHosts(unsorted, reversed, entries); }
      Sorting.SortBySorts(unsorted, falling);
      Sorting.SortedIsUnique(reversed, list, falling);
    }
  }

  /** Only the entry `e` of the host changed: its stamp and its counters. */
  ghost predicate Answered(e: Entry, kept: Entries, host: string, entries: Entries, clock: nat)
    requires host in kept
  {
    host in entries
    && entries == kept[host := e.(used := clock, hits := entries[host].hits, misses := entries[host].misses)]
  }

  /** The addresses an entry gives, also with other counters. */
  lemma Given(e: Entry, e': Entry)
    requires ByFamily(e) && e'.ipv4 == e.ipv4 && e'.ipv6 == e.ipv6
    ensures forall hits, misses :: ByFamily(e'.(hits := hits, misses := misses))
    ensures Addresses(e', true) == e.ipv4 && forall ip :: ip in e.ipv4 ==> ip.Ip4?
    ensures Addresses(e', false) == e.ipv4 + e.ipv6
    ensures var all := e.ipv4 + e.ipv6; forall i, j :: 0 <= i < j < |all| && all[j].Ip4? ==> all[i].Ip4?
  {
    var all := e.ipv4 + e.ipv6;
    forall i | 0 <= i < |all| ensures all[i].Ip4? <==> i < |e.ipv4| {
      if i < |e.ipv4| { assert e.ipv4[i] in e.ipv4; } else { assert e.ipv6[i - |e.ipv4|] in e.ipv6; }
    }
  }

  /** What `insert` does to the list, seen as dropping the first of a full list before the touch. */
  lemma InsertedOrder(order: seq<string>, entries: Entries, clock: nat, host: string)
    requires Listed(order, entries, clock) && |order| <= MAX_ENTRIES
    ensures |entries| == |order| && (host in order <==> host in entries)
    ensures var kept := if host !in entries && |entries| >= MAX_ENTRIES then order[1..] else order;
            Lru.Touch(kept, host) == Lru.Store(order, host, MAX_ENTRIES)
    ensures |Lru.Store(order, host, MAX_ENTRIES)| <= MAX_ENTRIES
  {
    Lru.StoreKeys(order, host, MAX_ENTRIES);
    ListedCount(order, entries, clock);
    var kept := if host !in entries && |entries| >= MAX_ENTRIES then order[1..] else order;
    if host !in order {
      assert Lru.Unique(kept);
      Lru.WithoutKeys(kept, host);
    }
  }

  lemma ListedTick(order: seq<string>, entries: Entries, clock: nat)
    requires Listed(order, entries, clock)
    ensures Listed(order, entries, clock + 1)
  {
  }

  lemma TouchedWithin(order: seq<string>, entries: Entries, clock: nat, host: string)
    requires Listed(order, entries, clock) && host in entries
    ensures |Lru.Touch(order, host)| == |order| && |Lru.Without(order, host)| <= |order|
  {
    Lru.TouchKeys(order, host);
  }

  function Negated(n: int): int { -n }

  function Reversed(s: seq<string>): (r: seq<string>)
    ensures |r| == |s| && forall i :: 0 <= i < |s| ==> r[i] == s[|s| - 1 - i]
  {
    seq(|s|, i requires 0 <= i < |s| => s[|s| - 1 - i])
  }

  lemma {:induction false} RisingAt(order: seq<string>, entries: Entries, i: nat, j: nat)
    requires (forall k :: k in order ==> k in entries) && Rising(order, entries) && i < j < |order|
    ensures entries[order[i]].used < entries[order[j]].used
    decreases |order|
  {
    if i == 0 { assert order[j] == order[1..][j - 1]; } else { RisingAt(order[1..], entries, i - 1, j - 1); }
  }

  lemma ReversedList(order: seq<string>, entries: Entries, clock: nat, falling: string -> int)
    requires Listed(order, entries, clock) && forall k :: k in entries ==> falling(k) == Negated(entries[k].used)
    ensures var r := Reversed(order);
            Sorting.StrictlySortedBy(r, falling) && Lru.Unique(r) && forall k :: k in r <==> k in entries
  {
    hide Rising;
    var r := Reversed(order);
    forall i, j | 0 <= i < j < |r| ensures falling(r[i]) < falling(r[j]) && r[i] != r[j] {
      RisingAt(order, entries, |order| - 1 - j, |order| - 1 - i);
    }
    forall k ensures k in r <==> k in entries {
      if k in order {
        var i :| 0 <= i < |order| && order[i] == k;
        assert r[|order| - 1 - i] == k;
      }
      if k in r {
        var i :| 0 <= i < |r| && r[i] == k;
        assert order[|order| - 1 - i] == k;
      }
    }
  }

  lemma SameHosts(a: seq<string>, b: seq<string>, entries: Entries)
    requires forall k :: k in entries ==> multiset(a)[k] == 1
    requires forall k :: k !in entries ==> k !in a
    requires Lru.Unique(b) && forall k :: k in b <==> k in entries
    ensures multiset(a) == multiset(b)
  {
    forall k ensures multiset(a)[k] == multiset(b)[k] {
      OnceEach(b, k);
      assert k in a <==> k in multiset(a);
    }
  }

  lemma {:induction false} OnceEach(s: seq<string>, k: string)
    requires Lru.Unique(s)
    ensures multiset(s)[k] == if k in s then 1 else 0
    decreases |s|
  {
    if s != [] {
      assert s == [s[0]] + s[1..];
      assert Lru.Unique(s[1..]) && s[0] !in s[1..];
      OnceEach(s[1..], k);
    }
  }
}
