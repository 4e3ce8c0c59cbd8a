/**
  The embedding cache as the object the service holds: a map, a recency deque and two counters,
  all updated in place.  Every method is tied to the corresponding operation of `Lru`.
*/
module EmbeddingCache {
  import opened Common
  import Lru
  import opened LruInclusion

  datatype CacheStats = CacheStats(size: nat, maxSize: nat, hits: nat, misses: nat, hitRate: real)

  lemma {:induction false} RemoveFirstAt(s: seq<string>, k: string, pos: nat)
    requires pos < |s| && s[pos] == k && k !in s[..pos]
    ensures Lru.RemoveFirst(s, k) == s[..pos] + s[pos + 1..]
  {
    if pos > 0 {
      assert s[1..][..pos - 1] == s[..pos][1..];
      assert s[0] == s[..pos][0];
      RemoveFirstAt(s[1..], k, pos - 1);
    }
  }

  class Cache<V> {
    var cache: map<string, V>
    var lru: seq<string>
    var hits: nat
    var misses: nat
    const maxSize: nat
    const normalize: string -> string

    ghost function View(): Lru.Cache<string, V>
      reads this
    {
      Lru.Cache(cache, lru, hits, misses)
    }

    constructor (maxSize: nat, normalize: string -> string)
      ensures this.maxSize == maxSize && this.normalize == normalize
      ensures View() == Lru.Empty()
    {
      this.maxSize, this.normalize := maxSize, normalize;
      cache, lru, hits, misses := map[], [], 0, 0;
    }

    method Get(text: string) returns (r: Option<V>)
      modifies this
      ensures View() == Lru.Get(old(View()), normalize(text), maxSize)
      ensures r == Lru.Found(old(View()), normalize(text))
    {
      var key := normalize(text);
      if key in cache {
        UpdateLru(key);
        hits := hits + 1;
        r := Some(cache[key]);
      } else {
        misses := misses + 1;
        r := None;
      }
    }

    method Put(text: string, embedding: V)
      modifies this
      ensures View() == Lru.Put(old(View()), normalize(text), embedding, maxSize)
    {
      var key := normalize(text);
      if |cache| >= maxSize && key !in cache {
        EvictLru();
      }
      cache := cache[key := embedding];
      UpdateLru(key);
    }

    method GetOrCompute(text: string, compute: () -> Result<V>) returns (r: Result<V>)
      modifies this
      ensures var key := normalize(text);
              var looked := Lru.Get(old(View()), key, maxSize);
              match Lru.Found(old(View()), key)
              case Some(v) => r == Ok(v) && View() == looked
              case None =>
                r == compute() &&
                View() == if r.Ok? then Lru.Put(looked, key, r.value, maxSize) else looked
    {
      var found := Get(text);
      if found.Some? {
        return Ok(found.value);
      }
      r := compute();
      if r.Ok? {
        Put(text, r.value);
      }
    }

    method Clear()
      modifies this
      ensures View() == Lru.Empty()
    {
      cache, lru, hits, misses := map[], [], 0, 0;
    }

    method Stats() returns (s: CacheStats)
      ensures s.size == |cache| && s.maxSize == maxSize && s.hits == hits && s.misses == misses
      ensures 0.0 <= s.hitRate <= 1.0
      ensures s.hitRate * (hits + misses) as real == hits as real
      ensures hits + misses == 0 ==> s.hitRate == 0.0
    {
      var total := hits + misses;
      var rate := if total > 0 then hits as real / total as real else 0.0;
      s := CacheStats(|cache|, maxSize, hits, misses, rate);
    }

    /** Moves `key` to the front of the deque and trims the deque to the capacity. */
    method UpdateLru(key: string)
      modifies this`lru
      ensures lru == Lru.Touch(old(lru), key, maxSize)
    {
      var pos := 0;
      while pos < |lru| && lru[pos] != key
        invariant pos <= |lru| && key !in lru[..pos]
      {
        pos := pos + 1;
      }
      if pos < |lru| {
        RemoveFirstAt(lru, key, pos);
        lru := lru[..pos] + lru[pos + 1..];
      } else {
        assert lru[..pos] == lru;
        RemoveFirstAbsent(lru, key);
      }
      lru := [key] + lru;
      ghost var full := lru;
      while |lru| > maxSize
        invariant lru <= full
        invariant |lru| >= maxSize || lru == full
      {
        lru := lru[..|lru| - 1];
      }
    }

    method EvictLru()
      modifies this`lru, this`cache
      ensures View() == Lru.Evict(old(View()))
    {
      if |lru| > 0 {
        var key := lru[|lru| - 1];
        lru := lru[..|lru| - 1];
        cache := cache - {key};
      }
    }
  }
}
