/** `Residency`: at most `limit` loaded engines, the least recently used evicted first. */
module Residency {
  import opened ByteStrings

  type Key = string

  function Without(order: seq<Key>, k: Key): (items: seq<Key>) {
    if order == [] then []
    else if order[0] == k then Without(order[1..], k)
    else [order[0]] + Without(order[1..], k)
  }

  function Touch(order: seq<Key>, k: Key): (items: seq<Key>) {
    Without(order, k) + [k]
  }

  /** The keys touched so far, each once, the most recently touched last. */
  function Recency(trace: seq<Key>): (items: seq<Key>) {
    if trace == [] then [] else Touch(Recency(trace[..|trace| - 1]), trace[|trace| - 1])
  }

  function LastOf(order: seq<Key>, limit: nat): (items: seq<Key>) {
    order[Max(0, |order| - limit)..]
  }

  /** What a cache of `limit` keys has to hold after a trace of touches. */
  function Residents(trace: seq<Key>, limit: nat): (items: seq<Key>) {
    LastOf(Recency(trace), limit)
  }

  predicate Distinct(order: seq<Key>) {
    forall i, j :: 0 <= i < j < |order| ==> order[i] != order[j]
  }

  class Residency<Engine> {
    const limit: nat
    /** The OrderedDict: its keys in order, and its values; a loader may have returned None. */
    var loaded: seq<Key>
    var engines: map<Key, Option<Engine>>
    /** The touches since the start or the last release of everything, in the order in which the lock saw them. */
    ghost var trace: seq<Key>

    ghost predicate Valid()
      reads this
    {
      && limit >= 1 && loaded == Residents(trace, limit)
      && Distinct(loaded) && (forall k :: k in engines <==> k in loaded)
    }

    constructor (limit: int)
      ensures Valid() && loaded == [] && trace == [] && this.limit == Max(1, limit)
    {
      this.limit := Max(1, limit);
      loaded, engines, trace := [], map[], [];
    }

    /** The lock-held step of `use` that looks for the key; a hit is a touch. */
    method Lookup(key: Key) returns (hit: Option<Engine>)
      requires Valid()
      modifies this
      ensures Valid() && engines == old(engines)
      ensures hit == if key in old(engines) then old(engines)[key] else None
      ensures trace == if hit.Some? then old(trace) + [key] else old(trace)
    {
      hide Residents, Touch, Distinct, LastOf;
      if key !in engines || engines[key].None? {
        return None;
      }
      TouchResidents(trace, limit, key);
      TouchKeeps(loaded, key);
      loaded := Touch(loaded, key);
      trace := trace + [key];
      return engines[key];
    }

    /** The eviction loop of `adopt`. */
    method Evict()
      requires Distinct(loaded) && forall k :: k in engines <==> k in loaded
      modifies this`loaded, this`engines
      ensures loaded == LastOf(old(loaded), limit)
      ensures forall k :: k in engines <==> k in loaded
      ensures forall k :: k in engines ==> k in old(engines) && engines[k] == old(engines)[k]
    {
      hide Distinct;
      while |loaded| > limit
        invariant |loaded| >= Min(limit, |old(loaded)|)
        invariant |loaded| <= |old(loaded)| && loaded == old(loaded)[|old(loaded)| - |loaded|..]
        invariant Distinct(loaded)
        invariant forall k :: k in engines <==> k in loaded
        invariant forall k :: k in engines ==> k in old(engines) && engines[k] == old(engines)[k]
      {
        DropFirst(loaded);
        engines := engines - {loaded[0]};
        loaded := loaded[1..];
      }
    }

    /** `adopt` under the lock: a touch, then eviction from the front. */
    method Adopt(key: Key, engine: Option<Engine>)
      requires Valid()
      modifies this
      ensures Valid() && trace == old(trace) + [key] && key in engines && engines[key] == engine
      ensures forall k :: k in loaded && k != key ==> k in old(engines) && engines[k] == old(engines)[k]
    {
      hide Residents, Touch, Distinct, LastOf;
      TouchResidents(trace, limit, key);
      TouchResidents(trace + [key], limit, key);
      TouchKeeps(loaded, key);
      engines := engines[key := engine];
      loaded := Touch(loaded, key);
      LastStays(loaded, limit);
      Evict();
      trace := trace + [key];
    }

    /** `release_all` */
    method ReleaseAll() returns (released: seq<Key>)
      requires Valid()
      modifies this
      ensures Valid() && loaded == [] && trace == [] && released == old(loaded)
    {
      released := loaded;
      loaded, engines, trace := [], map[], [];
    }

    /** `use` with nobody else in between: one touch, and a load exactly if the key is not resident with an
        engine. `fromLoader` is what the loader returns. */
    method Use(key: Key, fromLoader: Option<Engine>) returns (engine: Option<Engine>, loads: nat)
      requires Valid()
      modifies this
      ensures Valid() && trace == old(trace) + [key]
      ensures loads == if key in old(engines) && old(engines)[key].Some? then 0 else 1
      ensures engine == if loads == 0 then old(engines)[key] else fromLoader
      ensures key in engines && engines[key] == engine
      ensures forall k :: k in engines && k != key ==> k in old(engines) && engines[k] == old(engines)[k]
    {
      var existing := Lookup(key);
      if existing.Some? {
        return existing, 0;
      }
      Adopt(key, fromLoader);
      return fromLoader, 1;
    }
  }

  /** One caller uses one key after another, and every loader returns an engine: the cache loads exactly as often as
      the trace says. */
  method UseAll<Engine>(keys: seq<Key>, limit: int, load: Key -> Engine) returns (loads: nat)
    ensures loads == Loads(keys, Max(1, limit))
  {
    hide Residents;
    var cache := new Residency<Engine>(limit);
    loads := 0;
    for i := 0 to |keys|
      invariant cache.Valid() && fresh(cache) && cache.limit == Max(1, limit) && cache.trace == keys[..i]
      invariant forall k :: k in cache.engines ==> cache.engines[k].Some?
      invariant loads == Loads(keys[..i], Max(1, limit))
    {
      assert keys[..i + 1][..i] == keys[..i] && keys[..i + 1] == keys[..i] + [keys[i]];
      var engine, loaded := cache.Use(keys[i], Some(load(keys[i])));
      loads := loads + loaded;
    }
    assert keys[..|keys|] == keys;
  }

  // ---- orders ----

  lemma DropFirst(order: seq<Key>)
    requires order != [] && Distinct(order)
    ensures order[0] !in order[1..] && Distinct(order[1..])
    ensures forall x :: x in order <==> x == order[0] || x in order[1..]
  {
    assert order == [order[0]] + order[1..];
  }

  lemma LastStays(order: seq<Key>, limit: nat)
    requires order != [] && limit >= 1
    ensures order[|order| - 1] in LastOf(order, limit)
  {
    var last := LastOf(order, limit);
    assert last[|last| - 1] == order[|order| - 1];
  }

  lemma {:induction false} WithoutKeeps(order: seq<Key>, k: Key)
    requires Distinct(order)
    ensures var w := Without(order, k);
            && Distinct(w) && (forall x :: x in w <==> x in order && x != k)
            && |w| == |order| - (if k in order then 1 else 0) && (k !in order ==> w == order)
  {
    if order != [] {
      DropFirst(order);
      WithoutKeeps(order[1..], k);
    }
  }

  lemma TouchKeeps(order: seq<Key>, k: Key)
    requires Distinct(order)
    ensures var t := Touch(order, k);
            && Distinct(t) && t != [] && t[|t| - 1] == k && (forall x :: x in t <==> x in order || x == k)
            && |t| == |order| + (if k in order then 0 else 1)
  {
    WithoutKeeps(order, k);
  }

  lemma {:induction false} WithoutConcat(a: seq<Key>, b: seq<Key>, k: Key)
    ensures Without(a + b, k) == Without(a, k) + Without(b, k)
  {
    if a == [] {
      assert a + b == b;
    } else {
      assert (a + b)[1..] == a[1..] + b;
      WithoutConcat(a[1..], b, k);
    }
  }

  lemma {:induction false} RecencyDistinct(trace: seq<Key>)
    ensures Distinct(Recency(trace)) && forall k :: k in Recency(trace) <==> k in trace
  {
    if trace != [] {
      var before := trace[..|trace| - 1];
      RecencyDistinct(before);
      TouchKeeps(Recency(before), trace[|trace| - 1]);
      assert trace == before + [trace[|trace| - 1]];
    }
  }

  /** Evicting early is evicting late: what falls out of a full cache can never come back on its own. */
  lemma EvictionCommutes(order: seq<Key>, limit: nat, k: Key)
    requires Distinct(order) && limit >= 1
    ensures LastOf(Touch(order, k), limit) == LastOf(Touch(LastOf(order, limit), k), limit)
  {
    var cut := Max(0, |order| - limit);
    var gone, kept := order[..cut], order[cut..];
    assert order == gone + kept;
    WithoutConcat(gone, kept, k);
    WithoutKeeps(kept, k);
    WithoutKeeps(gone, k);
    assert Touch(order, k) == Without(gone, k) + Touch(kept, k);
    if k in kept {
      assert k !in gone;
    }
    SuffixOfSuffix(Without(gone, k), Touch(kept, k), limit);
  }

  lemma SuffixOfSuffix(a: seq<Key>, b: seq<Key>, limit: nat)
    requires a == [] || limit <= |b|
    ensures LastOf(a + b, limit) == LastOf(b, limit)
  {
    if a == [] {
      assert a + b == b;
    }
  }

  lemma TouchResidents(trace: seq<Key>, limit: nat, k: Key)
    requires limit >= 1
    ensures Residents(trace + [k], limit) == LastOf(Touch(Residents(trace, limit), k), limit)
    ensures Distinct(Residents(trace, limit)) && |Residents(trace, limit)| <= limit
    ensures k in Residents(trace, limit) ==>
              Residents(trace + [k], limit) == Touch(Residents(trace, limit), k)
  {
    assert (trace + [k])[..|trace|] == trace;
    RecencyDistinct(trace);
    EvictionCommutes(Recency(trace), limit, k);
    TouchKeeps(Residents(trace, limit), k);
  }

  // ---- what recency means, and the stack property ----

  /** The last position at which a key was touched. */
  function LastTouch(trace: seq<Key>, k: Key): (i: int)
    ensures -1 <= i < |trace|
    ensures i >= 0 ==> trace[i] == k
    ensures forall j :: i < j < |trace| ==> trace[j] != k
  {
    if trace == [] then -1
    else if trace[|trace| - 1] == k then |trace| - 1
    else LastTouch(trace[..|trace| - 1], k)
  }

  /** LRU exactness: the residents are the `limit` last distinct touched keys, in the order of their last touch. */
  lemma ResidentsAreMostRecent(trace: seq<Key>, limit: nat)
    ensures var r := Residents(trace, limit);
            && Distinct(r) && |r| == Min(limit, |Recency(trace)|) && (forall k :: k in r ==> k in trace)
            && (forall i, j :: 0 <= i < j < |r| ==> LastTouch(trace, r[i]) < LastTouch(trace, r[j]))
            && (forall k, x :: k in r && x in trace && x !in r ==> LastTouch(trace, x) < LastTouch(trace, k))
  {
    hide Recency, LastTouch, LastOf;
    var all, r := Recency(trace), Residents(trace, limit);
    RecencyDistinct(trace);
    RecencyOrder(trace);
    SuffixOrder(trace, all, limit);
    forall k, x | k in r && x in trace && x !in r ensures LastTouch(trace, x) < LastTouch(trace, k) {
      SuffixLast(trace, all, limit, k, x);
    }
  }

  lemma SuffixOrder(trace: seq<Key>, order: seq<Key>, limit: nat)
    requires OrderedBy(trace, order) && Distinct(order)
    ensures var r := LastOf(order, limit);
            OrderedBy(trace, r) && Distinct(r) && |r| == Min(limit, |order|) && forall k :: k in r ==> k in order
  {
    hide LastTouch;
    var r, gone := LastOf(order, limit), Max(0, |order| - limit);
    assert forall i | 0 <= i < |r| :: r[i] == order[gone + i];
  }

  lemma SuffixLast(trace: seq<Key>, order: seq<Key>, limit: nat, k: Key, x: Key)
    requires OrderedBy(trace, order) && k in LastOf(order, limit) && x in order && x !in LastOf(order, limit)
    ensures LastTouch(trace, x) < LastTouch(trace, k)
  {
    hide LastTouch, LastOf;
    var i := PlaceInSuffix(order, limit, k);
    var j :| 0 <= j < |order| && order[j] == x;
    if j >= Max(0, |order| - limit) {
      SuffixHas(order, limit, j);
    }
  }

  lemma PlaceInSuffix(order: seq<Key>, limit: nat, k: Key) returns (i: nat)
    requires k in LastOf(order, limit)
    ensures Max(0, |order| - limit) <= i < |order| && order[i] == k
  {
    var r := LastOf(order, limit);
    i :| 0 <= i < |r| && r[i] == k;
    i := Max(0, |order| - limit) + i;
  }

  lemma SuffixHas(order: seq<Key>, limit: nat, i: nat)
    requires Max(0, |order| - limit) <= i < |order|
    ensures order[i] in LastOf(order, limit)
  {
    assert LastOf(order, limit)[i - Max(0, |order| - limit)] == order[i];
  }

  lemma {:induction false} RecencyOrder(trace: seq<Key>)
    ensures OrderedBy(trace, Recency(trace))
  {
    if trace != [] {
      var n := |trace| - 1;
      var before, k := trace[..n], trace[n];
      var old_, new_ := Recency(before), Recency(trace);
      RecencyOrder(before);
      RecencyDistinct(before);
      WithoutKeeps(old_, k);
      WithoutOrder(before, old_, k);
      forall i, j | 0 <= i < j < |new_| ensures LastTouch(trace, new_[i]) < LastTouch(trace, new_[j]) {
        assert new_[i] != k;
        assert LastTouch(trace, new_[i]) == LastTouch(before, new_[i]);
        if j < |new_| - 1 {
          assert new_[j] != k;
          assert LastTouch(trace, new_[j]) == LastTouch(before, new_[j]);
        }
      }
    }
  }

  ghost predicate OrderedBy(trace: seq<Key>, order: seq<Key>) {
    forall i, j :: 0 <= i < j < |order| ==> LastTouch(trace, order[i]) < LastTouch(trace, order[j])
  }

  lemma {:induction false} WithoutOrder(trace: seq<Key>, order: seq<Key>, k: Key)
    requires OrderedBy(trace, order)
    ensures OrderedBy(trace, Without(order, k))
    ensures forall x :: x in Without(order, k) ==> x in order && x != k
  {
    hide LastTouch, OrderedBy;
    if order == [] {
      assert Without(order, k) == order;
    } else {
      HeadFirst(trace, order);
      WithoutOrder(trace, order[1..], k);
      assert order == [order[0]] + order[1..];
      if order[0] != k {
        ConsOrder(trace, order[0], Without(order[1..], k));
      }
    }
  }

  lemma ConsOrder(trace: seq<Key>, first: Key, rest: seq<Key>)
    requires OrderedBy(trace, rest) && forall x :: x in rest ==> LastTouch(trace, first) < LastTouch(trace, x)
    ensures OrderedBy(trace, [first] + rest)
  {
    hide LastTouch;
    assert forall j | 0 < j < |rest| + 1 :: ([first] + rest)[j] == rest[j - 1];
  }

  lemma HeadFirst(trace: seq<Key>, order: seq<Key>)
    requires order != [] && OrderedBy(trace, order)
    ensures OrderedBy(trace, order[1..])
    ensures forall x :: x in order[1..] ==> LastTouch(trace, order[0]) < LastTouch(trace, x)
  {
    hide LastTouch;
    forall x | x in order[1..] ensures LastTouch(trace, order[0]) < LastTouch(trace, x) {
      var i :| 0 <= i < |order[1..]| && order[1..][i] == x;
      assert order[i + 1] == x;
    }
  }

  /** How many touches of a sequential trace find their key missing. */
  function Loads(trace: seq<Key>, limit: nat): (n: nat) {
    if trace == [] then 0
    else
      var before, k := trace[..|trace| - 1], trace[|trace| - 1];
      Loads(before, limit) + if k in Residents(before, limit) then 0 else 1
  }

  /** Stack property: under a smaller limit the residents are the last of those under a larger one, so raising
      the limit never adds a load. */
  lemma {:induction false} StackProperty(trace: seq<Key>, small: nat, large: nat)
    requires small <= large
    ensures Residents(trace, small) == LastOf(Residents(trace, large), small)
    ensures Loads(trace, large) <= Loads(trace, small)
  {
    hide Recency, LastOf;
    LastOfLast(Recency(trace), small, large);
    if trace != [] {
      StackProperty(trace[..|trace| - 1], small, large);
      LastOfLast(Recency(trace[..|trace| - 1]), small, large);
    }
  }

  lemma LastOfLast(order: seq<Key>, small: nat, large: nat)
    requires small <= large
    ensures LastOf(order, small) == LastOf(LastOf(order, large), small)
    ensures forall k :: k in LastOf(order, small) ==> k in LastOf(order, large)
  {
  }
}
