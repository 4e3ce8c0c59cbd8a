/** The gRPC handlers as clients of the embedding cache. */
module ModelService {
  import opened Common
  import opened EmbedTraffic
  import EmbeddingCache

  type Embedding = seq<real>

  datatype EmbedResponse = EmbedResponse(embedding: Embedding, dimension: nat, fromCache: bool)

  /** The answer a batch gets without a cache: all embeddings in order, or the first error. */
  function Uncached(m: Model<Embedding>, texts: seq<string>): Result<seq<Embedding>> {
    if texts == [] then Ok([])
    else match Uncached(m, texts[..|texts| - 1])
      case Err(e) => Err(e)
      case Ok(es) =>
        match m.infer(texts[|texts| - 1])
        case Err(e) => Err(e)
        case Ok(v) => Ok(es + [v])
  }

  /** The uncached answer: every embedding in its place, or the error of the first text that has one. */
  lemma {:induction false} UncachedMeaning(m: Model<Embedding>, texts: seq<string>)
    ensures var r := Uncached(m, texts);
            && (r.Ok? ==> |r.value| == |texts| && forall j :: 0 <= j < |texts| ==> m.infer(texts[j]) == Ok(r.value[j]))
            && (r.Err? ==> exists j :: 0 <= j < |texts| && m.infer(texts[j]) == Err(r.message) &&
                                       forall i :: 0 <= i < j ==> m.infer(texts[i]).Ok?)
  {
    if texts != [] {
      var before := texts[..|texts| - 1];
      UncachedMeaning(m, before);
      if Uncached(m, before).Err? {
        var j :| 0 <= j < |before| && m.infer(before[j]) == Err(Uncached(m, before).message) &&
                 forall i :: 0 <= i < j ==> m.infer(before[i]).Ok?;
        assert texts[j] == before[j];
        assert forall i :: 0 <= i < j ==> texts[i] == before[i];
      } else {
        assert forall i :: 0 <= i < |before| ==> texts[i] == before[i];
      }
    }
  }

  /** What the service answers after a history, from the cache or by inference. */
  function Answer(m: Model<Embedding>, history: seq<string>, text: string, n: nat): Result<Embedding> {
    Serve(m, After(m, history, n), text, n).1
  }

  /** The answer a batch gets after a history: each text is answered after those before it. */
  function Served(m: Model<Embedding>, history: seq<string>, texts: seq<string>, n: nat): Result<seq<Embedding>> {
    if texts == [] then Ok([])
    else match Served(m, history, texts[..|texts| - 1], n)
      case Err(e) => Err(e)
      case Ok(es) =>
        match Answer(m, history + texts[..|texts| - 1], texts[|texts| - 1], n)
        case Err(e) => Err(e)
        case Ok(v) => Ok(es + [v])
  }

  /** If inference respects the cache keys, a batch is answered as without a cache, after any history. */
  lemma {:induction false} ServedIsUncached(m: Model<Embedding>, history: seq<string>, texts: seq<string>, n: nat)
    requires Respects(m)
    ensures Served(m, history, texts, n) == Uncached(m, texts)
  {
    if texts != [] {
      var before, text := texts[..|texts| - 1], texts[|texts| - 1];
      ServedIsUncached(m, history, before, n);
      AfterIsCoherent(m, history + before, n);
      CoherentAnswers(m, After(m, history + before, n), text, n);
    }
  }

  lemma {:induction false} ServedPrefixError(m: Model<Embedding>, history: seq<string>, texts: seq<string>, n: nat, i: nat)
    requires i <= |texts| && Served(m, history, texts[..i], n).Err?
    ensures Served(m, history, texts, n) == Served(m, history, texts[..i], n)
  {
    if i == |texts| {
      assert texts[..i] == texts;
    } else {
      assert texts[..|texts| - 1][..i] == texts[..i];
      ServedPrefixError(m, history, texts[..|texts| - 1], n, i);
    }
  }

  lemma ServedStep(m: Model<Embedding>, history: seq<string>, texts: seq<string>, n: nat, i: nat)
    requires i < |texts|
    ensures history + texts[..i + 1] == history + texts[..i] + [texts[i]]
    ensures Served(m, history, texts[..i], n).Ok? ==>
              Served(m, history, texts[..i + 1], n) ==
                match Answer(m, history + texts[..i], texts[i], n)
                case Err(e) => Err(e)
                case Ok(v) => Ok(Served(m, history, texts[..i], n).value + [v])
  {
    assert texts[..i + 1][..i] == texts[..i];
  }

  class Service {
    const model: Model<Embedding>
    const cache: EmbeddingCache.Cache<Embedding>
    ghost var history: seq<string>

    /** The cache is in the state its requests so far have put it in. */
    ghost predicate Valid()
      reads this, cache
    {
      cache.normalize == model.normalize && cache.View() == After(model, history, cache.maxSize)
    }

    constructor (model: Model<Embedding>, cacheSize: nat)
      ensures Valid() && history == [] && this.model == model && cache.maxSize == cacheSize && fresh(cache)
    {
      this.model, history := model, [];
      cache := new EmbeddingCache.Cache(cacheSize, model.normalize);
    }

    method EmbedText(text: string) returns (r: Result<EmbedResponse>)
      requires Valid()
      modifies this, cache
      ensures Valid() && history == old(history) + [text]
      ensures var key := model.normalize(text);
              && (r.Ok? <==> key in old(cache.cache) || model.infer(text).Ok?)
              && (r.Ok? ==>
                    && (r.value.fromCache <==> key in old(cache.cache))
                    && r.value.embedding == (if r.value.fromCache then old(cache.cache)[key] else model.infer(text).value)
                    && r.value.dimension == |r.value.embedding|)
      ensures Respects(model) ==>
                match model.infer(text)
                case Ok(v) => r.Ok? && r.value.embedding == v && r.value.dimension == |v|
                case Err(_) => r.Err?
    {
      AfterAppend(model, history, text, cache.maxSize);
      AfterIsCoherent(model, history, cache.maxSize);
      if Respects(model) {
        CoherentAnswers(model, cache.View(), text, cache.maxSize);
      }
      history := history + [text];
      var found := cache.Get(text);
      if found.Some? {
        return Ok(EmbedResponse(found.value, |found.value|, true));
      }
      match model.infer(text)
      case Ok(v) =>
        cache.Put(text, v);
        return Ok(EmbedResponse(v, |v|, false));
      case Err(_) =>
        return Err("Embedding generation failed");
    }

    /** One position of a batch. */
    method EmbedCached(text: string) returns (r: Result<Embedding>)
      requires Valid()
      modifies this, cache
      ensures Valid() && history == old(history) + [text]
      ensures r == Answer(model, old(history), text, cache.maxSize)
      ensures Respects(model) ==> r == model.infer(text)
    {
      AfterAppend(model, history, text, cache.maxSize);
      AfterIsCoherent(model, history, cache.maxSize);
      if Respects(model) {
        CoherentAnswers(model, cache.View(), text, cache.maxSize);
      }
      history := history + [text];
      r := cache.GetOrCompute(text, () => model.infer(text));
    }

    method EmbedBatch(texts: seq<string>) returns (r: Result<seq<Embedding>>)
      requires Valid()
      modifies this, cache
      ensures Valid() && old(history) <= history <= old(history) + texts
      ensures r.Ok? ==> history == old(history) + texts && |r.value| == |texts|
      ensures r == Served(model, old(history), texts, cache.maxSize)
      ensures Respects(model) ==> r == Uncached(model, texts)
    {
      if Respects(model) {
        ServedIsUncached(model, history, texts, cache.maxSize);
      }
      var embeddings: seq<Embedding> := [];
      for i := 0 to |texts|
        invariant Valid() && history == old(history) + texts[..i]
        invariant |embeddings| == i
        invariant Served(model, old(history), texts[..i], cache.maxSize) == Ok(embeddings)
      {
        ServedStep(model, old(history), texts, cache.maxSize, i);
        var answer := EmbedCached(texts[i]);
        if answer.Err? {
          ServedPrefixError(model, old(history), texts, cache.maxSize, i + 1);
          return Err(answer.message);
        }
        embeddings := embeddings + [answer.value];
      }
      assert texts[..|texts|] == texts;
      return Ok(embeddings);
    }
  }
}
