/** The recently served images kept in memory (`remember`, `recall`, `forget` of `backend-rs/src/imagecache.rs`). */
module ImageMemory {
  import opened Text
  import Lru

  const MAX_ENTRIES := 256

  /** An image by what tells it apart: its key, when it expires and its file. */
  datatype Hot = Hot(key: string, image: int, expireAt: int, file: string)

  function Key(group: string, cacheKey: string): string { group + ":" + cacheKey }

  /** Images of different groups (named without a colon) or cache keys have different keys. */
  lemma KeysDiffer(group: string, cacheKey: string, group': string, cacheKey': string)
    requires ':' !in group && ':' !in group'
    ensures Key(group, cacheKey) == Key(group', cacheKey') <==> group == group' && cacheKey == cacheKey'
  {
    SplitOnceAt(group, ':', cacheKey, {':'});
    SplitOnceAt(group', ':', cacheKey', {':'});
    assert Key(group, cacheKey) == group + [':'] + cacheKey && Key(group', cacheKey') == group' + [':'] + cacheKey';
  }

  function Keys(hot: seq<Hot>): (r: seq<string>)
    ensures |r| == |hot| && forall i :: 0 <= i < |hot| ==> r[i] == hot[i].key
  {
    seq(|hot|, i requires 0 <= i < |hot| => hot[i].key)
  }

  /** The entries with another key: `retain(|e| e.key != key)`. */
  function Others(hot: seq<Hot>, key: string): seq<Hot>
  {
    if hot == [] then []
    else if hot[0].key == key then Others(hot[1..], key)
    else [hot[0]] + Others(hot[1..], key)
  }

  lemma {:induction false} OthersKeys(hot: seq<Hot>, key: string)
    ensures Keys(Others(hot, key)) == Lru.Without(Keys(hot), key)
    ensures forall e :: e in Others(hot, key) <==> e in hot && e.key != key
    decreases |hot|
  {
    if hot != [] {
      OthersKeys(hot[1..], key);
      assert Keys(hot)[1..] == Keys(hot[1..]);
      assert hot == [hot[0]] + hot[1..];
      assert Keys([hot[0]] + Others(hot[1..], key)) == [hot[0].key] + Keys(Others(hot[1..], key));
    }
  }

  lemma KeysAppend(hot: seq<Hot>, e: Hot)
    ensures Keys(hot + [e]) == Keys(hot) + [e.key]
  {
  }

  /** The position of a key, the length when it isn't there. */
  function Position(hot: seq<Hot>, key: string): (i: nat)
    ensures i <= |hot| && (i < |hot| ==> hot[i].key == key) && forall j :: 0 <= j < i ==> hot[j].key != key
  {
    if hot == [] || hot[0].key == key then 0 else Position(hot[1..], key) + 1
  }

  /** Removing the one entry of a key at its position leaves the others. */
  lemma {:induction false} OthersAt(hot: seq<Hot>, i: nat)
    requires i < |hot| && Lru.Unique(Keys(hot))
    ensures Others(hot, hot[i].key) == hot[..i] + hot[i + 1..]
    decreases |hot|
  {
    var key := hot[i].key;
    assert Keys(hot)[0] == hot[0].key && Keys(hot)[i] == key;
    assert Keys(hot[1..]) == Keys(hot)[1..];
    if i == 0 {
      NoneToRemove(hot[1..], key);
    } else {
      OthersAt(hot[1..], i - 1);
      assert hot[..i] + hot[i + 1..] == [hot[0]] + (hot[1..][..i - 1] + hot[1..][i..]);
    }
  }

  lemma {:induction false} NoneToRemove(hot: seq<Hot>, key: string)
    requires forall i :: 0 <= i < |hot| ==> Keys(hot)[i] != key
    ensures Others(hot, key) == hot
    decreases |hot|
  {
    if hot != [] {
      assert Keys(hot[1..]) == Keys(hot)[1..];
      assert Keys(hot)[0] == hot[0].key;
      NoneToRemove(hot[1..], key);
      assert hot == [hot[0]] + hot[1..];
    }
  }

  /** The static `HOT` deque, the least recently used image first. */
  class HotImages {
    var hot: seq<Hot>

    ghost predicate Valid()
      reads this
    {
      Lru.Unique(Keys(hot)) && |hot| <= MAX_ENTRIES
    }

    constructor ()
      ensures Valid() && hot == []
    {
      hot := [];
    }

    /** `remember`: the keys change as a store in the LRU list does; the image is now the newest. */
    method Remember(group: string, cacheKey: string, image: int, expireAt: int, file: string)
      requires Valid()
      modifies this
      ensures Valid() && Keys(hot) == Lru.Store(Keys(old(hot)), Key(group, cacheKey), MAX_ENTRIES)
      ensures hot[|hot| - 1] == Hot(Key(group, cacheKey), image, expireAt, file)
      ensures forall e :: e in hot[..|hot| - 1] ==> e in old(hot) && e.key != Key(group, cacheKey)
    {
      hide Keys, Others, Lru.Store;
      var key := Key(group, cacheKey);
      var entry := Hot(key, image, expireAt, file);
      Remembered(hot, entry);
      hot := Others(hot, key);
      hot := hot + [entry];
      PopFront();
    }

    /** The closing loop of `remember`: the front goes until the bound holds. */
    method PopFront()
      modifies this
      ensures hot == Cut(old(hot))
    {
      ghost var all := hot;
      while |hot| > MAX_ENTRIES
        invariant |hot| <= |all| && hot == all[|all| - |hot|..] && (|hot| < |all| ==> |hot| >= MAX_ENTRIES)
        decreases |hot|
      {
        hot := hot[1..];
      }
    }

    /** `recall`: a remembered image is answered and becomes the most recent one. */
    method Recall(group: string, cacheKey: string) returns (r: Option<Hot>)
      requires Valid()
      modifies this
      ensures Valid()
      ensures r.Some? <==> Key(group, cacheKey) in Keys(old(hot))
      ensures r.Some? ==> r.value in old(hot) && r.value.key == Key(group, cacheKey)
                          && hot != [] && hot[|hot| - 1] == r.value
                          && Keys(hot) == Lru.Touch(Keys(old(hot)), Key(group, cacheKey))
                          && forall e :: e in hot <==> e in old(hot)
      ensures r.None? ==> hot == old(hot)
    {
      var key := Key(group, cacheKey);
      hide Keys, Lru.Touch, Lru.Unique;
      var index := Position(hot, key);
      Recalled(hot, index, key);
      if index == |hot| { return None; }
      var entry := hot[index];
      hot := hot[..index] + hot[index + 1..];
      hot := hot + [entry];
      return Some(entry);
    }

    /** `forget`. */
    method Forget(group: string, cacheKey: string)
      requires Valid()
      modifies this
      ensures Valid() && Keys(hot) == Lru.Without(Keys(old(hot)), Key(group, cacheKey))
      ensures forall e :: e in hot <==> e in old(hot) && e.key != Key(group, cacheKey)
    {
      OthersKeys(hot, Key(group, cacheKey));
      Lru.WithoutKeys(Keys(hot), Key(group, cacheKey));
      hot := Others(hot, Key(group, cacheKey));
    }
  }

  /** The deque after the key's old entry went and the new one came, cut to the bound. */
  function Cut(all: seq<Hot>): seq<Hot> { if |all| > MAX_ENTRIES then all[|all| - MAX_ENTRIES..] else all }

  /** Removing the key, appending it and dropping the front beyond the bound is a store. */
  lemma Remembered(hot: seq<Hot>, entry: Hot)
    requires Lru.Unique(Keys(hot)) && |hot| <= MAX_ENTRIES
    ensures var r := Cut(Others(hot, entry.key) + [entry]);
            Keys(r) == Lru.Store(Keys(hot), entry.key, MAX_ENTRIES) && Lru.Unique(Keys(r)) && 0 < |r| <= MAX_ENTRIES
            && r[|r| - 1] == entry && forall e :: e in r[..|r| - 1] ==> e in hot && e.key != entry.key
  {
    hide Lru.Unique, Others, Lru.Without, Cut, Lru.Store;
    var others := Others(hot, entry.key);
    OthersKeys(hot, entry.key);
    Lru.StoreKeys(Keys(hot), entry.key, MAX_ENTRIES);
    Lru.WithoutKeys(Keys(hot), entry.key);
    CutMembers(others, entry);
    CutKeys(hot, others, entry);
  }

  lemma CutMembers(others: seq<Hot>, entry: Hot)
    requires |others| <= MAX_ENTRIES
    ensures var r := Cut(others + [entry]);
            0 < |r| <= MAX_ENTRIES && r[|r| - 1] == entry && forall e :: e in r[..|r| - 1] ==> e in others
  {
    if |others| == MAX_ENTRIES {
      assert (others + [entry])[1..] == others[1..] + [entry];
      assert (others[1..] + [entry])[..|others| - 1] == others[1..];
      assert forall e :: e in others[1..] ==> e in others;
    } else {
      assert (others + [entry])[..|others|] == others;
    }
  }

  lemma CutKeys(hot: seq<Hot>, others: seq<Hot>, entry: Hot)
    requires |hot| <= MAX_ENTRIES && Keys(others) == Lru.Without(Keys(hot), entry.key)
    requires entry.key !in Keys(hot) ==> Keys(others) == Keys(hot)
    requires entry.key in Keys(hot) ==> |others| < |hot|
    ensures Keys(Cut(others + [entry])) == Lru.Store(Keys(hot), entry.key, MAX_ENTRIES)
  {
    hide Lru.Without;
    KeysAppend(others, entry);
    if |others| == MAX_ENTRIES {
      assert (others + [entry])[1..] == others[1..] + [entry];
      KeysAppend(others[1..], entry);
      assert Keys(others[1..]) == Keys(others)[1..];
    }
  }

  /** Moving a key's entry to the back touches the key. */
  lemma Recalled(hot: seq<Hot>, i: nat, key: string)
    requires Lru.Unique(Keys(hot)) && i == Position(hot, key)
    ensures key in Keys(hot) <==> i < |hot|
    ensures i < |hot| ==>
      var r := hot[..i] + hot[i + 1..] + [hot[i]];
      Keys(r) == Lru.Touch(Keys(hot), key) && Lru.Unique(Keys(r)) && |r| == |hot| && forall e :: e in r <==> e in hot
  {
    hide Lru.Unique, Lru.Without, Others;
    if i < |hot| {
      assert Keys(hot)[i] == key;
      OthersAt(hot, i);
      OthersKeys(hot, key);
      Lru.TouchKeys(Keys(hot), key);
      KeysAppend(Others(hot, key), hot[i]);
      MovedToBack(hot, i);
    }
  }

  lemma MovedToBack(hot: seq<Hot>, i: nat)
    requires i < |hot|
    ensures var r := hot[..i] + hot[i + 1..] + [hot[i]]; |r| == |hot| && forall e :: e in r <==> e in hot
  {
    assert hot == hot[..i] + [hot[i]] + hot[i + 1..];
  }
}
