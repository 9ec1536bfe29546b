/** The prefetch window around the current page and the bounded, insertion-ordered image
    cache of the reader (static/script.js, preloadImages). */
module Prefetch {
  import opened Seqs

  /** A cache key: the image URL `/api/image/<manga>/<file>`, whose two components are
      percent-encoded, so the pair determines the URL and conversely. */
  datatype ImageKey = ImageKey(manga: string, file: string)

  /** First index of the window: `floor(buffer / 2)` pages before the current one, not below 0. */
  function WindowStart(index: int, buffer: nat): int {
    Max(0, index - buffer / 2)
  }

  /** Last index of the window: `ceil(buffer / 2)` pages after the current one, not past the
      last image. */
  function WindowEnd(index: int, count: nat, buffer: nat): int {
    Min(count - 1, index + (buffer + 1) / 2)
  }

  /** The integers `lo..hi` in increasing order, leaving out `skip`. */
  function Span(lo: int, hi: int, skip: int): seq<int>
    decreases if hi < lo then 0 else hi - lo + 1
  {
    if hi < lo then []
    else Span(lo, hi - 1, skip) + (if hi == skip then [] else [hi])
  }

  /** The indices `preloadImages` visits, in visiting order: the window minus the current page. */
  function Window(index: int, count: nat, buffer: nat): seq<int> {
    Span(WindowStart(index, buffer), WindowEnd(index, count, buffer), index)
  }

  lemma {:induction false} SpanFacts(lo: int, hi: int, skip: int)
    ensures forall j :: j in Span(lo, hi, skip) <==> lo <= j <= hi && j != skip
    ensures |Span(lo, hi, skip)| == if hi < lo then 0 else hi - lo + 1 - (if lo <= skip <= hi then 1 else 0)
    ensures forall i, j :: 0 <= i < j < |Span(lo, hi, skip)| ==> Span(lo, hi, skip)[i] < Span(lo, hi, skip)[j]
    decreases if hi < lo then 0 else hi - lo + 1
  {
    if lo <= hi {
      SpanFacts(lo, hi - 1, skip);
      var init := Span(lo, hi - 1, skip);
      assert forall i :: 0 <= i < |init| ==> init[i] < hi by {
        forall i | 0 <= i < |init| ensures init[i] < hi {
          assert init[i] in init;
        }
      }
    }
  }

  /** Every prefetched index is a page of the chapter other than the current one, the window
      is exactly the clamped range around the current page, it is visited in increasing
      order, and it holds at most `buffer` indices. */
  lemma WindowFacts(index: int, count: nat, buffer: nat)
    ensures forall j :: j in Window(index, count, buffer) ==> 0 <= j < count && j != index
    ensures forall j :: j in Window(index, count, buffer) <==>
      WindowStart(index, buffer) <= j <= WindowEnd(index, count, buffer) && j != index
    ensures forall i, j :: 0 <= i < j < |Window(index, count, buffer)| ==>
      Window(index, count, buffer)[i] < Window(index, count, buffer)[j]
    ensures |Window(index, count, buffer)| <= buffer
    ensures forall i :: 0 <= i < |Window(index, count, buffer)| ==> 0 <= Window(index, count, buffer)[i] < count
  {
    var lo, hi := WindowStart(index, buffer), WindowEnd(index, count, buffer);
    SpanFacts(lo, hi, index);
    var w := Window(index, count, buffer);
    forall i | 0 <= i < |w| ensures 0 <= w[i] < count {
      assert w[i] in w;
    }
    assert buffer / 2 + (buffer + 1) / 2 == buffer;
  }

  /** The worked case: five images, a buffer of four, reading page 2. */
  lemma WindowExample()
    ensures Window(2, 5, 4) == [0, 1, 3, 4]
  {
    assert Span(0, 0, 2) == [0];
    assert Span(0, 1, 2) == [0, 1];
    assert Span(0, 2, 2) == [0, 1];
    assert Span(0, 3, 2) == [0, 1, 3];
  }

  /** The keys of the window's images that are not yet cached, in visiting order: the fetches
      that `preloadImages` issues. */
  function Missing(manga: string, images: seq<string>, window: seq<int>, cache: seq<ImageKey>): (r: seq<ImageKey>)
    requires forall i :: 0 <= i < |window| ==> 0 <= window[i] < |images|
    ensures |r| <= |window|
    ensures forall k :: k in r ==> k !in cache
    decreases |window|
  {
    if window == [] then []
    else
      var last := window[|window| - 1];
      var key := ImageKey(manga, images[last]);
      Missing(manga, images, window[..|window| - 1], cache) + (if key in cache then [] else [key])
  }

  lemma {:induction false} MissingMembers(manga: string, images: seq<string>, window: seq<int>, cache: seq<ImageKey>)
    requires forall i :: 0 <= i < |window| ==> 0 <= window[i] < |images|
    ensures forall k :: k in Missing(manga, images, window, cache) <==>
      k !in cache && exists j :: j in window && k == ImageKey(manga, images[j])
    decreases |window|
  {
    if window != [] {
      var init := window[..|window| - 1];
      MissingMembers(manga, images, init, cache);
      assert window == init + [window[|window| - 1]];
    }
  }

  /** Visiting one more index adds its key at the end when it is not cached. */
  lemma MissingSnoc(manga: string, images: seq<string>, window: seq<int>, j: int, cache: seq<ImageKey>)
    requires forall i :: 0 <= i < |window| ==> 0 <= window[i] < |images|
    requires 0 <= j < |images|
    ensures forall i :: 0 <= i < |window + [j]| ==> 0 <= (window + [j])[i] < |images|
    ensures Missing(manga, images, window + [j], cache) ==
      Missing(manga, images, window, cache) + (if ImageKey(manga, images[j]) in cache then [] else [ImageKey(manga, images[j])])
  {
    assert (window + [j])[..|window|] == window;
  }

  /** Drops the oldest keys while more than `cap` remain. */
  function Evict<K>(s: seq<K>, cap: nat): seq<K> {
    if |s| > cap then s[|s| - cap..] else s
  }

  /** The fetches `preloadImages` issues for the chapter `manga` read at `index`: the
      window's images that are not cached yet. */
  function Fetches(manga: string, images: seq<string>, index: int, buffer: nat, cache: seq<ImageKey>): seq<ImageKey> {
    WindowFacts(index, |images|, buffer);
    Missing(manga, images, Window(index, |images|, buffer), cache)
  }

  /** The `for` loop of preloadImages: visits the window in order and collects the keys of the
      images it does not find in the cache. */
  method PreloadWindow(manga: string, images: seq<string>, index: int, buffer: nat, cache: seq<ImageKey>)
    returns (requests: seq<ImageKey>)
    ensures requests == Fetches(manga, images, index, buffer, cache)
  {
    var startIndex := Max(0, index - buffer / 2);
    var endIndex := Min(|images| - 1, index + (buffer + 1) / 2);
    requests := [];
    var i := startIndex;
    ghost var visited: seq<int> := [];
    while i <= endIndex
      invariant startIndex <= i && (i <= endIndex + 1 || i == startIndex)
      invariant visited == Span(startIndex, i - 1, index)
      invariant forall k :: 0 <= k < |visited| ==> 0 <= visited[k] < |images|
      invariant requests == Missing(manga, images, visited, cache)
      decreases endIndex - i
    {
      if i != index {
        var key := ImageKey(manga, images[i]);
        MissingSnoc(manga, images, visited, i, cache);
        if key !in cache {
          requests := requests + [key];
        }
        visited := visited + [i];
      }
      i := i + 1;
    }
  }

  /** The `while (imageCache.size > preloadBuffer * 3)` loop: deletes the first key until at
      most `cap` remain. */
  method EvictOldest<K>(cache: seq<K>, cap: nat) returns (r: seq<K>)
    ensures r == Evict(cache, cap)
  {
    r := cache;
    while |r| > cap
      invariant |r| <= |cache| && r == cache[|cache| - |r|..]
      invariant r == cache || |r| >= cap
      decreases |r|
    {
      r := r[1..];
    }
  }

  /** A completed prefetch: `Set.add` (which keeps an existing key where it is), then eviction
      from the front down to `cap` keys. */
  function CacheAdd<K(==)>(cache: seq<K>, key: K, cap: nat): (r: seq<K>)
    ensures |r| <= cap
    ensures var grown := if key in cache then cache else cache + [key];
      |r| == Min(|grown|, cap) && r == grown[|grown| - |r|..]
  {
    Evict(if key in cache then cache else cache + [key], cap)
  }

  lemma CacheAddNoDup<K>(cache: seq<K>, key: K, cap: nat)
    requires NoDup(cache)
    ensures NoDup(CacheAdd(cache, key, cap))
  {
    var grown := if key in cache then cache else cache + [key];
    assert NoDup(grown);
    var r := CacheAdd(cache, key, cap);
    var d := |grown| - |r|;
    forall i, j | 0 <= i < j < |r| ensures r[i] != r[j] {
      assert r[i] == grown[d + i] && r[j] == grown[d + j];
    }
  }

  /** Re-adding a key that is already cached moves nothing (FIFO, not LRU). */
  lemma CacheAddPresent<K>(cache: seq<K>, key: K, cap: nat)
    requires key in cache && |cache| <= cap
    ensures CacheAdd(cache, key, cap) == cache
  {
  }

  /** A new key goes to the back; when the cache was full, exactly the oldest key leaves. */
  lemma CacheAddFresh<K>(cache: seq<K>, key: K, cap: nat)
    requires key !in cache && |cache| <= cap && cap > 0
    ensures CacheAdd(cache, key, cap) == if |cache| == cap then cache[1..] + [key] else cache + [key]
  {
    if |cache| == cap {
      assert (cache + [key])[1..] == cache[1..] + [key];
    }
  }

  /** Completions of `keys` in order, starting from `cache`. */
  function AddAll<K(==)>(cache: seq<K>, keys: seq<K>, cap: nat): seq<K>
    decreases |keys|
  {
    if keys == [] then cache
    else CacheAdd(AddAll(cache, keys[..|keys| - 1], cap), keys[|keys| - 1], cap)
  }

  /** Adding a key not yet present to the newest keys of a distinct sequence gives the newest
      keys of the sequence extended by it. */
  lemma AddNewestSuffix<K>(keys: seq<K>, m: nat, cap: nat)
    requires NoDup(keys) && |keys| >= 1 && m == Min(|keys| - 1, cap)
    ensures CacheAdd(keys[|keys| - 1 - m..|keys| - 1], keys[|keys| - 1], cap)
         == keys[|keys| - Min(|keys|, cap)..]
  {
    var n := |keys|;
    var prev := keys[n - 1 - m..n - 1];
    assert keys[n - 1] !in prev by {
      forall i | 0 <= i < |prev| ensures prev[i] != keys[n - 1] {
        assert prev[i] == keys[n - 1 - m + i];
      }
    }
    var grown := prev + [keys[n - 1]];
    assert grown == keys[n - 1 - m..];
  }

  lemma PrefixNoDup<K>(keys: seq<K>, n: nat)
    requires NoDup(keys) && n <= |keys|
    ensures NoDup(keys[..n])
  {
    var init := keys[..n];
    forall i, j | 0 <= i < j < |init| ensures init[i] != init[j] {
      assert init[i] == keys[i] && init[j] == keys[j];
    }
  }

  /** Starting from an empty cache, distinct completions leave exactly the newest `cap`
      of them, oldest first. */
  lemma {:induction false} AddAllDistinct<K>(keys: seq<K>, cap: nat)
    requires NoDup(keys)
    ensures AddAll([], keys, cap) == keys[|keys| - Min(|keys|, cap)..]
    decreases |keys|
  {
    if keys != [] {
      var n := |keys|;
      var init := keys[..n - 1];
      var m := Min(n - 1, cap);
      calc {
        AddAll([], keys, cap);
        CacheAdd(AddAll([], init, cap), keys[n - 1], cap);
        { PrefixNoDup(keys, n - 1);
          AddAllDistinct(init, cap);
          assert init[|init| - Min(|init|, cap)..] == keys[n - 1 - m..n - 1]; }
        CacheAdd(keys[n - 1 - m..n - 1], keys[n - 1], cap);
        { AddNewestSuffix(keys, m, cap); }
        keys[n - Min(n, cap)..];
      }
    }
  }

  /** With a buffer `b`, completing `3b + 1` distinct prefetches evicts exactly the first. */
  lemma OverflowEvictsFirst<K>(keys: seq<K>, buffer: nat)
    requires NoDup(keys) && |keys| == 3 * buffer + 1
    ensures AddAll([], keys, 3 * buffer) == keys[1..]
  {
    AddAllDistinct(keys, 3 * buffer);
    assert Min(|keys|, 3 * buffer) == 3 * buffer;
  }
}
