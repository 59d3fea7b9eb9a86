/** getScreenCTMCached: a per-key cache of `svg.getScreenCTM()` whose entries
    are refreshed once they are more than 300 ms old. */
module CtmCache {
  import opened Js
  import opened Dom

  /** An entry is served while `now - time` is at most this many milliseconds. */
  const StaleAfter := 300

  datatype Entry = Entry(time: int, ctm: Matrix)

  /** The outcome of one lookup: the new entries, the matrix returned, and
      whether the host's `getScreenCTM()` was consulted. */
  datatype Lookup<K> = Lookup(entries: map<K, Entry>, ctm: Matrix, queried: bool)

  /** One call at clock value `now` for `key`, where `live` is what
      `getScreenCTM()` would answer at that moment. A hit within the window
      returns the stored matrix and changes nothing; an expired entry is
      refreshed in place; a miss inserts a new entry. */
  function CacheStep<K>(entries: map<K, Entry>, key: K, now: int, live: Matrix): (r: Lookup<K>)
    ensures r.queried <==> key !in entries || now - entries[key].time > StaleAfter
    ensures !r.queried ==> r.entries == entries && r.ctm == entries[key].ctm
    ensures r.queried ==> r.ctm == live && r.entries == entries[key := Entry(now, live)]
  {
    if key in entries then
      var cached := entries[key];
      if now - cached.time > StaleAfter then
        Lookup(entries[key := Entry(now, live)], live, true)
      else
        Lookup(entries, cached.ctm, false)
    else
      Lookup(entries[key := Entry(now, live)], live, true)
  }

  /** After any call the key has an entry, the returned matrix is that
      entry's, the entry is at most 300 ms old, and every other key keeps
      its entry. */
  lemma CacheStepInvariant<K>(entries: map<K, Entry>, key: K, now: int, live: Matrix)
    ensures var r := CacheStep(entries, key, now, live);
      && key in r.entries
      && r.ctm == r.entries[key].ctm
      && now - r.entries[key].time <= StaleAfter
      && r.entries.Keys == entries.Keys + {key}
      && forall k :: k in entries && k != key ==> r.entries[k] == entries[k]
  {
  }

  /** A sequence of calls to the cache. */
  datatype Call<K> = Call(key: K, now: int, live: Matrix)

  datatype Trace<K> = Trace(entries: map<K, Entry>, results: seq<Matrix>, queried: seq<bool>)

  /** The calls applied in order, with what each returned and whether it
      consulted the host. */
  function Replay<K>(entries: map<K, Entry>, calls: seq<Call<K>>): (t: Trace<K>)
    ensures |t.results| == |calls| && |t.queried| == |calls|
    decreases |calls|
  {
    if |calls| == 0 then Trace(entries, [], [])
    else
      var step := CacheStep(entries, calls[0].key, calls[0].now, calls[0].live);
      var rest := Replay(step.entries, calls[1..]);
      Trace(rest.entries, [step.ctm] + rest.results, [step.queried] + rest.queried)
  }

  /** Within the window every call for a key observes the same snapshot:
      while each call for `key` comes at most 300 ms after the entry's time,
      all of them return the stored matrix without consulting the host,
      whatever calls for other keys come in between, and the entry stays. */
  lemma {:induction false} StableWithinWindow<K>(entries: map<K, Entry>, key: K, calls: seq<Call<K>>)
    requires key in entries
    requires forall i :: 0 <= i < |calls| && calls[i].key == key ==> calls[i].now - entries[key].time <= StaleAfter
    ensures var t := Replay(entries, calls);
      && key in t.entries && t.entries[key] == entries[key]
      && forall i :: 0 <= i < |calls| && calls[i].key == key ==> t.results[i] == entries[key].ctm && !t.queried[i]
    decreases |calls|
  {
    if |calls| > 0 {
      var step := CacheStep(entries, calls[0].key, calls[0].now, calls[0].live);
      CacheStepInvariant(entries, calls[0].key, calls[0].now, calls[0].live);
      assert key in step.entries && step.entries[key] == entries[key];
      StableWithinWindow(step.entries, key, calls[1..]);
      var t := Replay(entries, calls);
      var rest := Replay(step.entries, calls[1..]);
      forall i | 0 <= i < |calls| && calls[i].key == key
        ensures t.results[i] == entries[key].ctm && !t.queried[i]
      {
        if i > 0 {
          assert calls[1..][i - 1] == calls[i];
        }
      }
    }
  }

  /** The window is measured from the entry's time, not from the previous
      call: a call at 300 ms is still served the stored matrix, and a call one
      millisecond later refreshes it. */
  lemma WindowRunsFromEntryTime<K>(key: K, stored: Matrix, live1: Matrix, live2: Matrix)
    ensures var first := CacheStep(map[key := Entry(0, stored)], key, StaleAfter, live1);
      var second := CacheStep(first.entries, key, StaleAfter + 1, live2);
      && !first.queried && first.ctm == stored
      && second.queried && second.ctm == live2 && second.entries[key] == Entry(StaleAfter + 1, live2)
  {
  }

  /** The cache state the source keeps in a closure, made an object. `keyOf`
      is how an element becomes a dictionary key. */
  class ScreenCtmCache<K(==)> {
    const keyOf: Element -> K
    var entries: map<K, Entry>
    /** How many times the host's `getScreenCTM()` has been called. */
    ghost var queries: nat

    constructor (keyOf: Element -> K)
      ensures this.keyOf == keyOf && entries == map[] && queries == 0
    {
      this.keyOf := keyOf;
      entries := map[];
      queries := 0;
    }

    /** getScreenCTMCached(svg) at clock value `now`; `live` is what
        `svg.getScreenCTM()` answers at that moment. */
    method GetScreenCtmCached(svg: Element, now: int, live: Matrix) returns (ctm: Matrix)
      modifies this`entries, this`queries
      ensures var r := CacheStep(old(entries), keyOf(svg), now, live);
        && entries == r.entries
        && ctm == r.ctm
        && queries == old(queries) + (if r.queried then 1 else 0)
    {
      var key := keyOf(svg);
      if key in entries {
        var cached := entries[key];
        if now - cached.time > StaleAfter {
          queries := queries + 1;
          cached := Entry(now, live);
          entries := entries[key := cached];
        }
        ctm := cached.ctm;
      } else {
        queries := queries + 1;
        entries := entries[key := Entry(now, live)];
        ctm := live;
      }
    }
  }

  /** The cache as written: keyed by the element's string form. */
  method NewScreenCtmCache() returns (cache: ScreenCtmCache<string>)
    ensures fresh(cache) && cache.keyOf == ToKey && cache.entries == map[]
  {
    cache := new ScreenCtmCache(ToKey);
  }

  /** Two distinct elements of one interface share an entry: once the first
      has been looked up, the second is served the first one's matrix,
      without a query, for as long as the entry is fresh. */
  lemma SharedStringKeyConflatesElements(x: Element, y: Element, entries: map<string, Entry>,
                                          t: int, u: int, mx: Matrix, my: Matrix)
    requires x != y && x.interfaceName == y.interfaceName
    requires ToKey(x) !in entries
    requires 0 <= u - t <= StaleAfter
    ensures var first := CacheStep(entries, ToKey(x), t, mx);
      var second := CacheStep(first.entries, ToKey(y), u, my);
      && first.queried && first.ctm == mx
      && !second.queried && second.ctm == mx
  {
  }

  /** Keyed by identity, one entry per SVG element as the cache's own doc
      comment (src/svg-utilities.js:102-109) describes it, a call for one
      element never alters another element's entry. */
  lemma IdentityKeyKeepsElementsApart(x: Element, y: Element, entries: map<Element, Entry>,
                                      now: int, live: Matrix)
    requires x != y
    ensures var r := CacheStep(entries, y, now, live);
      (x in entries <==> x in r.entries) && (x in entries ==> r.entries[x] == entries[x])
  {
  }

  /** The cache keyed by element identity. */
  method NewIdentityKeyedCache() returns (cache: ScreenCtmCache<Element>)
    ensures fresh(cache) && (forall e :: cache.keyOf(e) == e) && cache.entries == map[]
  {
    cache := new ScreenCtmCache(e => e);
  }
}
