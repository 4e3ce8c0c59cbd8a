/**
  What the cache does under the traffic of the embedding service, where a lookup that misses is
  followed by inference and, if that succeeds, by an insertion.
*/
module EmbedTraffic {
  import opened Common
  import opened Lru

  /** Text to cache key, and text to embedding; both come from outside. */
  datatype Model<!V> = Model(normalize: string -> string, infer: string -> Result<V>)

  function Serve<V>(m: Model<V>, c: Cache<string, V>, text: string, n: nat): (Cache<string, V>, Result<V>) {
    var key := m.normalize(text);
    var looked := Get(c, key, n);
    if key in c.entries then (looked, Ok(c.entries[key]))
    else match m.infer(text)
      case Ok(v) => (Put(looked, key, v, n), Ok(v))
      case Err(e) => (looked, Err(e))
  }

  /** The cache after a history of requests. */
  function After<V>(m: Model<V>, history: seq<string>, n: nat): Cache<string, V> {
    if history == [] then Empty()
    else Serve(m, After(m, history[..|history| - 1], n), history[|history| - 1], n).0
  }

  lemma AfterAppend<V>(m: Model<V>, history: seq<string>, text: string, n: nat)
    ensures After(m, history + [text], n) == Serve(m, After(m, history, n), text, n).0
  {
    assert (history + [text])[..|history|] == history;
  }

  // ----- transparency -----

  /** Texts with the same cache key get the same embedding, as soon as one of them gets any. */
  ghost predicate Respects<V(!new)>(m: Model<V>) {
    forall a, b :: m.normalize(a) == m.normalize(b) && m.infer(a).Ok? ==> m.infer(b) == m.infer(a)
  }

  /** After every history, every request is answered as inference without a cache would answer it. */
  ghost predicate Transparent<V(!new)>(m: Model<V>, n: nat) {
    forall history, text :: Serve(m, After(m, history, n), text, n).1 == m.infer(text)
  }

  /** Every entry is the embedding of some text with that key. */
  ghost predicate Coherent<V(!new)>(m: Model<V>, c: Cache<string, V>) {
    forall k :: k in c.entries ==> exists t :: m.normalize(t) == k && m.infer(t) == Ok(c.entries[k])
  }

  lemma ServeKeepsCoherent<V(!new)>(m: Model<V>, c: Cache<string, V>, text: string, n: nat)
    requires Coherent(m, c)
    ensures Coherent(m, Serve(m, c, text, n).0)
  {
    var c' := Serve(m, c, text, n).0;
    var key := m.normalize(text);
    forall k | k in c'.entries ensures exists t :: m.normalize(t) == k && m.infer(t) == Ok(c'.entries[k]) {
      if k == key && key !in c.entries {
        assert m.infer(text) == Ok(c'.entries[k]);
      } else {
        assert k in c.entries && c'.entries[k] == c.entries[k];
      }
    }
  }

  lemma {:induction false} AfterIsCoherent<V(!new)>(m: Model<V>, history: seq<string>, n: nat)
    ensures Coherent(m, After(m, history, n))
  {
    if history != [] {
      AfterIsCoherent(m, history[..|history| - 1], n);
      ServeKeepsCoherent(m, After(m, history[..|history| - 1], n), history[|history| - 1], n);
    }
  }

  lemma CoherentAnswers<V(!new)>(m: Model<V>, c: Cache<string, V>, text: string, n: nat)
    requires Respects(m) && Coherent(m, c)
    ensures Serve(m, c, text, n).1 == m.infer(text)
  {
  }

  /**
    The cache is transparent, for every history and every eviction pattern, exactly when inference
    respects the key normalization.
  */
  lemma TransparentIffRespects<V(!new)>(m: Model<V>, n: nat)
    ensures Transparent(m, n) <==> Respects(m)
  {
    if Respects(m) {
      forall history, text ensures Serve(m, After(m, history, n), text, n).1 == m.infer(text) {
        AfterIsCoherent(m, history, n);
        CoherentAnswers(m, After(m, history, n), text, n);
      }
    }
    if Transparent(m, n) {
      forall a, b | m.normalize(a) == m.normalize(b) && m.infer(a).Ok? ensures m.infer(b) == m.infer(a) {
        assert [a][..0] == [];
        assert After(m, [], n) == Empty();
        var c := After(m, [a], n);
        assert c == Serve(m, Empty(), a, n).0;
        assert m.normalize(b) in c.entries && Ok(c.entries[m.normalize(b)]) == m.infer(a);
        assert Serve(m, c, b, n).1 == m.infer(b);
      }
    }
  }

  // ----- recency -----

  /** The distinct keys of a history, most recently requested first. */
  function MostRecent<K(==)>(ks: seq<K>): seq<K> {
    if ks == [] then []
    else [ks[|ks| - 1]] + RemoveFirst(MostRecent(ks[..|ks| - 1]), ks[|ks| - 1])
  }

  function LastIndex<K(==)>(ks: seq<K>, x: K): int {
    if ks == [] then -1 else if ks[|ks| - 1] == x then |ks| - 1 else LastIndex(ks[..|ks| - 1], x)
  }

  ghost predicate NewestFirst<K>(ks: seq<K>, s: seq<K>) {
    s == [] ||
    ((forall x :: x in s[1..] ==> LastIndex(ks, x) < LastIndex(ks, s[0])) && NewestFirst(ks, s[1..]))
  }

  lemma {:induction false} NewestFirstRemove<K>(ks: seq<K>, s: seq<K>, k: K)
    requires NoDup(s) && NewestFirst(ks, s)
    ensures NewestFirst(ks, RemoveFirst(s, k))
  {
    if s != [] && s[0] != k {
      NewestFirstRemove(ks, s[1..], k);
      RemoveFirstProps(s[1..], k);
      var t := RemoveFirst(s[1..], k);
      forall x | x in t ensures x in s[1..] {
        assert x in Elements(t);
      }
    }
  }

  lemma {:induction false} NewestFirstExtend<K>(ks: seq<K>, k: K, s: seq<K>)
    requires NewestFirst(ks, s) && k !in s
    ensures NewestFirst(ks + [k], s)
  {
    assert (ks + [k])[..|ks|] == ks;
    if s != [] {
      NewestFirstExtend(ks, k, s[1..]);
      assert forall x :: x in s ==> LastIndex(ks + [k], x) == LastIndex(ks, x);
    }
  }

  lemma {:induction false} LastIndexBound<K>(ks: seq<K>, x: K)
    ensures -1 <= LastIndex(ks, x) < |ks|
  {
    if ks != [] { LastIndexBound(ks[..|ks| - 1], x); }
  }

  /** `MostRecent` lists exactly the requested keys, each once, by decreasing time of last request. */
  lemma {:induction false} MostRecentMeaning<K>(ks: seq<K>)
    ensures NoDup(MostRecent(ks)) && Elements(MostRecent(ks)) == Elements(ks)
    ensures NewestFirst(ks, MostRecent(ks))
  {
    if ks != [] {
      var k, before := ks[|ks| - 1], ks[..|ks| - 1];
      var m := MostRecent(before);
      MostRecentMeaning(before);
      RemoveFirstProps(m, k);
      var t := RemoveFirst(m, k);
      ConsProps(k, t);
      assert ks == before + [k];
      NewestFirstRemove(before, m, k);
      NewestFirstExtend(before, k, t);
      forall x | x in t ensures LastIndex(ks, x) < LastIndex(ks, k) {
        assert x != k;
        LastIndexBound(before, x);
      }
      assert ([k] + t)[1..] == t;
    }
  }

  lemma {:induction false} RemoveFirstTake<K>(s: seq<K>, k: K, n: nat)
    requires NoDup(s) && n <= |s|
    ensures k in s[..n] ==> |RemoveFirst(s, k)| == |s| - 1 && RemoveFirst(s, k)[..n - 1] == RemoveFirst(s[..n], k)
    ensures k !in s[..n] ==> |RemoveFirst(s, k)| >= |s| - 1 &&
                             forall i :: 0 <= i < n && i < |RemoveFirst(s, k)| ==> RemoveFirst(s, k)[i] == s[i]
  {
    RemoveFirstProps(s, k);
    if s != [] && n > 0 {
      assert s[..n][1..] == s[1..][..n - 1];
      assert s[..n] == [s[0]] + s[1..][..n - 1];
      RemoveFirstTake(s[1..], k, n - 1);
    }
  }

  /** Requesting `k` keeps the first `n` keys of the full recency list, evicting or not. */
  lemma TakeTouch<K>(s: seq<K>, k: K, n: nat)
    requires NoDup(s) && n >= 1
    ensures var t := Take(s, n);
            Take([k] + RemoveFirst(s, k), n) ==
              [k] + (if |t| == n && k !in t then t[..n - 1] else RemoveFirst(t, k))
  {
    RemoveFirstProps(s, k);
    if |s| > n {
      RemoveFirstTake(s, k, n);
    }
  }

  function Keys<V>(m: Model<V>, history: seq<string>): seq<string> {
    seq(|history|, i requires 0 <= i < |history| => m.normalize(history[i]))
  }

  /** The requests of a history for which inference gives an embedding. */
  function Embeddable<V>(m: Model<V>, history: seq<string>): seq<string> {
    if history == [] then []
    else
      var before, text := history[..|history| - 1], history[|history| - 1];
      if m.infer(text).Ok? then Embeddable(m, before) + [text] else Embeddable(m, before)
  }

  /** Inference never fails, or at least texts with one cache key fail together. */
  ghost predicate FailsByKey<V(!new)>(m: Model<V>) {
    (forall t :: m.infer(t).Ok?) || Respects(m)
  }

  /**
    With a capacity of at least 1, the recency list after any history is exactly the `n` most
    recently requested distinct keys, newest first, of the requests that inference can answer.
  */
  lemma {:induction false} RecencyIsMostRecent<V(!new)>(m: Model<V>, history: seq<string>, n: nat)
    requires n >= 1 && FailsByKey(m)
    ensures Inv(After(m, history, n), n)
    ensures After(m, history, n).recency == Take(MostRecent(Keys(m, Embeddable(m, history))), n)
  {
    if history != [] {
      var before, text := history[..|history| - 1], history[|history| - 1];
      RecencyIsMostRecent(m, before, n);
      var c := After(m, before, n);
      if m.infer(text).Ok? {
        KeysAppend(m, Embeddable(m, before), text);
        MostRecentAppend(Keys(m, Embeddable(m, before)), m.normalize(text), n);
        ServeRecency(m, c, text, n);
      } else {
        AfterIsCoherent(m, before, n);
        FailureIsMiss(m, c, text);
        assert After(m, history, n) == Get(c, m.normalize(text), n);
      }
    }
  }

  lemma KeysAppend<V>(m: Model<V>, texts: seq<string>, text: string)
    ensures Keys(m, texts + [text]) == Keys(m, texts) + [m.normalize(text)]
  {
  }

  lemma MostRecentAppend<K>(ks: seq<K>, k: K, n: nat)
    requires n >= 1
    ensures var t := Take(MostRecent(ks), n);
            Take(MostRecent(ks + [k]), n) == [k] + (if |t| == n && k !in t then t[..n - 1] else RemoveFirst(t, k))
  {
    assert (ks + [k])[..|ks|] == ks;
    MostRecentMeaning(ks);
    TakeTouch(MostRecent(ks), k, n);
  }

  /** A text that inference cannot answer is not in the cache under its key. */
  lemma FailureIsMiss<V(!new)>(m: Model<V>, c: Cache<string, V>, text: string)
    requires FailsByKey(m) && Coherent(m, c) && m.infer(text).Err?
    ensures m.normalize(text) !in c.entries
  {
  }

  lemma ServeRecency<V(!new)>(m: Model<V>, c: Cache<string, V>, text: string, n: nat)
    requires n >= 1 && Inv(c, n) && m.infer(text).Ok?
    ensures Inv(Serve(m, c, text, n).0, n)
    ensures var k := m.normalize(text);
            Serve(m, c, text, n).0.recency ==
              [k] + (if |c.recency| == n && k !in c.recency then c.recency[..n - 1] else RemoveFirst(c.recency, k))
  {
    var k := m.normalize(text);
    InvSize(c, n);
    GetProps(c, k, n);
    if k !in c.entries {
      PutProps(Get(c, k, n), k, m.infer(text).value, n);
    }
  }
}
