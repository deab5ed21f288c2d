/** Lookups that miss the DNS cache, and what they store (`backend-rs/src/dnscache.rs`, lines 176 to 345). */
module DnsLookup {
  import opened Text
  import opened DnsCache
  import Lru

  const MAX_RETRIES := 3

  // ------------------------------------------------------------------ answers

  /** The addresses of both families and how long they last. */
  datatype Answer = Answer(ipv4: seq<Ip>, ipv6: seq<Ip>, ttl: nat)

  predicate Pure(a: Answer) { (forall ip :: ip in a.ipv4 ==> ip.Ip4?) && forall ip :: ip in a.ipv6 ==> ip.Ip6? }

  /** An A or AAAA record with its TTL in seconds. */
  datatype Record = Record(ip: Ip, ttl: nat)

  function Ips(records: seq<Record>): (ips: seq<Ip>)
    ensures |ips| == |records| && forall i :: 0 <= i < |ips| ==> ips[i] == records[i].ip
  {
    seq(|records|, i requires 0 <= i < |records| => records[i].ip)
  }

  function LowestTtl(records: seq<Record>): (r: nat)
    requires records != []
    ensures (exists x :: x in records && x.ttl == r) && forall x :: x in records ==> r <= x.ttl
  {
    var init, last := records[..|records| - 1], records[|records| - 1];
    assert records == init + [last];
    if init == [] then last.ttl
    else
      var rest := LowestTtl(init);
      if rest < last.ttl then rest else last.ttl
  }

  /** `resolve_with_ttl` of the records that came; a failed query of one family counts as none. */
  function Resolved(a: seq<Record>, aaaa: seq<Record>): (r: Option<Answer>)
    ensures r.None? <==> a == [] && aaaa == []
    ensures r.Some? ==> forall x :: x in a || x in aaaa ==> r.value.ttl <= 1000 * x.ttl
    ensures r.Some? ==> exists x :: (x in a || x in aaaa) && r.value.ttl == 1000 * x.ttl
    ensures r.Some? ==> |r.value.ipv4| == |a| && forall i :: 0 <= i < |a| ==> r.value.ipv4[i] == a[i].ip
    ensures r.Some? ==> |r.value.ipv6| == |aaaa| && forall i :: 0 <= i < |aaaa| ==> r.value.ipv6[i] == aaaa[i].ip
    ensures r.Some? && (forall x :: x in a ==> x.ip.Ip4?) && (forall x :: x in aaaa ==> x.ip.Ip6?) ==> Pure(r.value)
  {
    var all := a + aaaa;
    assert forall x :: x in all <==> x in a || x in aaaa;
    if all == [] then None else Some(Answer(Ips(a), Ips(aaaa), 1000 * LowestTtl(all)))
  }

  /** `active`. */
  function Active(ipv4: seq<Ip>, ipv6: seq<Ip>, preferV4: bool): Ip
  {
    var first, second := if preferV4 then ipv4 else ipv6, if preferV4 then ipv6 else ipv4;
    if first != [] then first[0] else if second != [] then second[0] else Ip4(0x7f00_0001)
  }

  function V4(found: seq<Ip>): (r: seq<Ip>)
    ensures forall ip :: ip in r <==> ip in found && ip.Ip4?
  {
    if found == [] then []
    else
      var last := found[|found| - 1];
      assert found == found[..|found| - 1] + [last];
      V4(found[..|found| - 1]) + if last.Ip4? then [last] else []
  }

  function V6(found: seq<Ip>): (r: seq<Ip>)
    ensures forall ip :: ip in r <==> ip in found && ip.Ip6?
  {
    if found == [] then []
    else
      var last := found[|found| - 1];
      assert found == found[..|found| - 1] + [last];
      V6(found[..|found| - 1]) + if last.Ip6? then [last] else []
  }

  lemma NothingFound()
    ensures V4([]) == [] && V6([]) == []
  {
  }

  lemma OneMoreFound(init: seq<Ip>, last: Ip)
    ensures V4(init + [last]) == V4(init) + (if last.Ip4? then [last] else [])
    ensures V6(init + [last]) == V6(init) + if last.Ip6? then [last] else []
  {
    var all := init + [last];
    assert all[..|all| - 1] == init;
  }

  /** Both keep the addresses of their family in the order found. */
  lemma {:induction false} FamiliesSplit(a: seq<Ip>, b: seq<Ip>, ip: Ip)
    ensures V4(a + b) == V4(a) + V4(b) && V6(a + b) == V6(a) + V6(b)
    ensures V4([ip]) == (if ip.Ip4? then [ip] else []) && V6([ip]) == if ip.Ip6? then [ip] else []
    decreases |b|
  {
    hide V4, V6;
    OneMoreFound([], ip);
    NothingFound();
    assert [] + [ip] == [ip] && V4(a) + [] == V4(a) && V6(a) + [] == V6(a);
    if b == [] {
      assert a + b == a;
    } else {
      var init, last := b[..|b| - 1], b[|b| - 1];
      FamiliesSplit(a, init, ip);
      OneMoreFound(init, last);
      OneMoreFound(a + init, last);
      assert a + b == a + init + [last] && b == init + [last];
    }
  }

  /** The new addresses that aren't there yet, once each, behind the old ones. */
  ghost predicate IsMerged(known: seq<Ip>, found: seq<Ip>, out: seq<Ip>)
  {
    known <= out && (forall ip :: ip in out <==> ip in known || ip in found)
    && forall i, j :: |known| <= j < |out| && 0 <= i < j ==> out[i] != out[j]
  }

  /** The `merge` of `native_fallback`. */
  method Merge(known: seq<Ip>, found: seq<Ip>) returns (out: seq<Ip>)
    ensures IsMerged(known, found, out)
  {
    out := known;
    for k := 0 to |found|
      invariant IsMerged(known, found[..k], out)
    {
      assert found[..k + 1] == found[..k] + [found[k]];
      if found[k] !in out { out := out + [found[k]]; }
    }
    assert found[..|found|] == found;
  }

  // ------------------------------------------------------------------- stores

  /** A store of `e` for the host: it is the most recent, and a full cache loses the least recent host for a new one. */
  ghost predicate Stores(before: Entries, order: seq<string>, after: Entries, order': seq<string>, host: string,
                         e: Entry)
  {
    host in after && after[host] == e && order' == Lru.Store(order, host, MAX_ENTRIES)
    && (forall k :: k in after && k != host ==> k in before && after[k] == before[k])
    && forall k :: k in before && k !in after ==> |before| == MAX_ENTRIES && order != [] && k == order[0]
  }

  /** The entry of an answer: an earlier entry's counters go on, and the lookup counts as a miss. */
  function Fetched(before: Entries, host: string, ttl: Ttl, a: Answer, preferV4: bool, now: int, used: nat): Entry
  {
    Entry(a.ipv4, a.ipv6, Active(a.ipv4, a.ipv6, preferV4), now, if ttl.min > a.ttl then ttl.min else a.ttl,
          if host in before then before[host].hits else 0, 1 + if host in before then before[host].misses else 0, used)
  }

  /** `resolve_and_store` with an answer. */
  method Keep(c: Cache, host: string, ttl: Ttl, a: Answer, preferV4: bool, now: int)
    requires c.Valid() && Pure(a)
    modifies c`entries, c`order, c`clock
    ensures c.Valid() && c.clock == old(c.clock) + 1
    ensures Stores(old(c.entries), old(c.order), c.entries, c.order, host,
                   Fetched(old(c.entries), host, ttl, a, preferV4, now, c.clock))
    ensures var e := c.entries[host];
            e.ipv4 == a.ipv4 && e.ipv6 == a.ipv6 && e.stored == now
            && e.ttl >= ttl.min && e.ttl >= a.ttl && (e.ttl == ttl.min || e.ttl == a.ttl)
            && (a.ipv4 != [] && (preferV4 || a.ipv6 == []) ==> e.active == a.ipv4[0])
            && (a.ipv6 != [] && (!preferV4 || a.ipv4 == []) ==> e.active == a.ipv6[0])
            && (if host in old(c.entries)
                then e.hits == old(c.entries)[host].hits && e.misses == old(c.entries)[host].misses + 1
                else e.hits == 0 && e.misses == 1)
  {
    hide Lru.Store;
    var e := Fetched(c.entries, host, ttl, a, preferV4, now, 0);
    FullOrder(c);
    c.Insert(host, e);
  }

  lemma FullOrder(c: Cache)
    requires c.Valid()
    ensures |c.entries| == |c.order|
  {
    ListedCount(c.order, c.entries, c.clock);
  }

  /** The entry of a native lookup: what is known of the host and what was found, for the fallback's time. */
  ghost predicate Native(before: Entries, host: string, ttl: Ttl, found: seq<Ip>, now: int, used: nat, e: Entry)
  {
    found != [] && e.active == found[0] && e.stored == now && e.ttl == ttl.Fallback() && e.hits == e.misses == 0
    && e.used == used
    && (if host in before
        then IsMerged(before[host].ipv4, V4(found), e.ipv4) && IsMerged(before[host].ipv6, V6(found), e.ipv6)
        else e.ipv4 == V4(found) && e.ipv6 == V6(found))
  }

  /** `native_fallback`: `lookup` is what the system's resolver found, or none when it failed. */
  method NativeFallback(c: Cache, host: string, ttl: Ttl, ipv4Only: bool, lookup: Option<seq<Ip>>, now: int)
    returns (r: Option<seq<Ip>>)
    requires c.Valid()
    modifies c`entries, c`order, c`clock
    ensures c.Valid()
    ensures r.None? <==> lookup.None? || lookup.value == []
    ensures r.None? ==> c.entries == old(c.entries) && c.order == old(c.order) && c.clock == old(c.clock)
    ensures r.Some? ==>
      r.value == (if ipv4Only then V4(lookup.value) else lookup.value) && host in c.entries
      && Native(old(c.entries), host, ttl, lookup.value, now, c.clock, c.entries[host])
      && Stores(old(c.entries), old(c.order), c.entries, c.order, host, c.entries[host])
  {
    hide Lru.Store, IsMerged, V4, V6, Listed;
    if lookup.None? || lookup.value == [] { return None; }
    var found := lookup.value;
    var v4, v6 := V4(found), V6(found);
    if host in c.entries {
      v4 := Merge(c.entries[host].ipv4, v4);
      v6 := Merge(c.entries[host].ipv6, v6);
    }
    FullOrder(c);
    c.Insert(host, Entry(v4, v6, found[0], now, ttl.Fallback(), 0, 0, 0));
    r := Some(if ipv4Only then V4(found) else found);
  }

  // ------------------------------------------------------------------ lookups

  /** The last retry asks for IPv4 first. */
  predicate PreferV4(ipv4Only: bool, attempt: nat) { ipv4Only || attempt == MAX_RETRIES }

  /** The attempts of a lookup: up to the first answer, else all. */
  ghost predicate Attempts(answers: nat -> Option<Answer>, attempts: nat, native: bool)
  {
    1 <= attempts <= MAX_RETRIES + 1 && (native ==> attempts == MAX_RETRIES + 1)
    && (forall i :: 0 <= i < attempts - 1 ==> answers(i).None?) && answers(attempts - 1).None? == native
  }

  /** The backoff slept before that many attempts. */
  function Backoff(attempts: nat): nat
  {
    if attempts <= 1 then 0 else if attempts == 2 then 100 else if attempts == 3 then 300 else 700
  }

  /**
   * The loop of `lookup` once nothing was cached, while nobody else uses the cache: the first answer is stored and
   * given, and after four failures the native lookup's. Attempt `i` gets `answers(i)` at the time `times(i)`.
   */
  method Resolve(c: Cache, host: string, ttl: Ttl, ipv4Only: bool, answers: nat -> Option<Answer>,
                 lookup: Option<seq<Ip>>, times: nat -> int)
    returns (r: Option<seq<Ip>>, attempts: nat, native: bool, slept: nat)
    requires c.Valid() && forall i :: answers(i).Some? ==> Pure(answers(i).value)
    modifies c`entries, c`order, c`clock, c`failures
    ensures c.Valid() && Attempts(answers, attempts, native) && slept == Backoff(attempts)
    ensures attempts <= 4 && (attempts == 1 ==> slept == 0) && (attempts == 2 ==> slept == 100)
         && (attempts == 3 ==> slept == 300) && (attempts == 4 ==> slept == 700)
    ensures c.failures == old(c.failures) + if native then attempts else attempts - 1
    ensures !native ==>
      var i := attempts - 1;
      Stores(old(c.entries), old(c.order), c.entries, c.order, host,
             Fetched(old(c.entries), host, ttl, answers(i).value, PreferV4(ipv4Only, i), times(i), c.clock))
      && r == Some(if ipv4Only then answers(i).value.ipv4 else answers(i).value.ipv4 + answers(i).value.ipv6)
    ensures !native ==>
      var a, e := answers(attempts - 1).value, c.entries[host];
      ((ipv4Only || attempts == 4) && a.ipv4 != [] ==> e.active == a.ipv4[0])
      && (!ipv4Only && attempts < 4 && a.ipv6 != [] ==> e.active == a.ipv6[0])
    ensures r.Some? && ipv4Only ==> forall ip :: ip in r.value ==> ip.Ip4?
    ensures native ==> (r.None? <==> lookup.None? || lookup.value == [])
    ensures r.None? ==> c.entries == old(c.entries) && c.order == old(c.order)
    ensures native && r.Some? ==>
      r.value == (if ipv4Only then V4(lookup.value) else lookup.value) && host in c.entries
      && Native(old(c.entries), host, ttl, lookup.value, times(attempts), c.clock, c.entries[host])
      && Stores(old(c.entries), old(c.order), c.entries, c.order, host, c.entries[host])
  {
    hide Native, Stores, V4, Lru.Store;
    var attempt, prefer, backoff := 0, ipv4Only, 100;
    slept := 0;
    while true
      invariant c.Valid() && c.entries == old(c.entries) && c.order == old(c.order)
      invariant attempt <= MAX_RETRIES && c.failures == old(c.failures) + attempt
      invariant forall i :: 0 <= i < attempt ==> answers(i).None?
      invariant backoff == if attempt == 0 then 100 else if attempt == 1 then 200 else if attempt == 2 then 400 else 800
      invariant slept == Backoff(attempt + 1) && prefer == PreferV4(ipv4Only, attempt)
      decreases MAX_RETRIES - attempt
    {
      if answers(attempt).Some? {
        Keep(c, host, ttl, answers(attempt).value, prefer, times(attempt));
        StoredHost(old(c.entries), old(c.order), c.entries, c.order, host,
                   Fetched(old(c.entries), host, ttl, answers(attempt).value, prefer, times(attempt), c.clock));
        return Some(Addresses(c.entries[host], ipv4Only)), attempt + 1, false, slept;
      }
      c.failures := c.failures + 1;
      if attempt >= MAX_RETRIES {
        var found := NativeFallback(c, host, ttl, ipv4Only, lookup, times(attempt + 1));
        return found, attempt + 1, true, slept;
      }
      slept := slept + if backoff < 2000 then backoff else 2000;
      backoff := backoff * 2;
      prefer := prefer || attempt + 1 == MAX_RETRIES;
      attempt := attempt + 1;
    }
  }

  lemma StoredHost(before: Entries, order: seq<string>, after: Entries, order': seq<string>, host: string, e: Entry)
    requires Stores(before, order, after, order', host, e)
    ensures host in after && after[host] == e
  {
  }

  /**
   * A lookup and a later one of the same host: the later one is answered from the cache exactly while the stored
   * answer is younger than its TTL and a positive `forceMaxTtl`, and with the same addresses; what a native lookup
   * found is among them. The TTL is never below `forceMinTtl`.
   */
  method ResolveThenLookup(c: Cache, host: string, ttl: Ttl, ipv4Only: bool, answers: nat -> Option<Answer>,
                           lookup: Option<seq<Ip>>, times: nat -> int, later: int)
    returns (r: Option<seq<Ip>>, stored: int, entryTtl: int, native: bool, again: Cached)
    requires c.Valid() && forall i :: answers(i).Some? ==> Pure(answers(i).value)
    modifies c
    ensures c.Valid() && (native <==> forall i :: 0 <= i <= MAX_RETRIES ==> answers(i).None?)
    ensures r.Some? ==>
      ttl.min <= entryTtl && (exists i :: 0 <= i <= MAX_RETRIES + 1 && stored == times(i))
      && (again.Fresh? <==> Age(later, stored) < entryTtl && (ttl.max.Some? ==> Age(later, stored) < ttl.max.value))
    ensures r.Some? && again.Fresh? ==>
      if native then forall ip :: ip in r.value ==> ip in again.found else again.found == r.value
  {
    hide Lru.Store, Lru.Keep, Lru.Touch, Lru.Without, Listed;
    var attempts, slept;
    r, attempts, native, slept := Resolve(c, host, ttl, ipv4Only, answers, lookup, times);
    stored, entryTtl := 0, 0;
    if host in c.entries { stored, entryTtl := c.entries[host].stored, c.entries[host].ttl; }
    ghost var e := if host in c.entries then Some(c.entries[host]) else None;
    if r.Some? { assert stored == times(if native then attempts else attempts - 1); }
    again := c.Lookup(host, ttl, ipv4Only, later);
    if r.Some? && again.Fresh? && native { NativeFound(lookup.value, e.value, ipv4Only); }
  }

  lemma NativeFound(found: seq<Ip>, e: Entry, ipv4Only: bool)
    requires forall ip :: ip in V4(found) ==> ip in e.ipv4
    requires forall ip :: ip in V6(found) ==> ip in e.ipv6
    ensures forall ip :: ip in (if ipv4Only then V4(found) else found) ==> ip in Addresses(e, ipv4Only)
  {
  }
}
