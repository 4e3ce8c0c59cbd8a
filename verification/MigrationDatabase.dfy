/**
  The migration itself: the loop that fills a write batch and commits it, the status handling,
  and the database-wide driver.

  `committed` records every state the database has been in.  Each write may fail, which is also
  how a killed process shows: the method stops and the database stays in its last committed state.
  `failures` counts the writes that failed, so that an error can be traced to its cause.
*/
module MigrationDatabase {
  import opened Common
  import opened IndexFormat
  import opened MigrationProtocol

  datatype Op = Put(key: Bytes, value: Bytes) | Delete(key: Bytes)

  const BATCH_SIZE: nat := 1000

  function ApplyOp(f: Family, op: Op): Family {
    match op
    case Put(k, v) => f[k := v]
    case Delete(k) => f - {k}
  }

  function ApplyBatch(f: Family, batch: seq<Op>): Family {
    if batch == [] then f
    else ApplyOp(ApplyBatch(f, batch[..|batch| - 1]), batch[|batch| - 1])
  }

  lemma ApplyBatchAppend(f: Family, batch: seq<Op>, op: Op)
    ensures ApplyBatch(f, batch + [op]) == ApplyOp(ApplyBatch(f, batch), op)
  {
    assert (batch + [op])[..|batch|] == batch;
  }

  function CompositesOf(key: Bytes, ids: set<Bytes>): set<Bytes> {
    set id | id in ids :: Composite(key, id)
  }

  lemma QueueOneId(f: Family, key: Bytes, ids: set<Bytes>, id: Bytes)
    ensures ApplyOp(WithEmpty(f, CompositesOf(key, ids)), Put(Composite(key, id), []))
         == WithEmpty(f, CompositesOf(key, ids + {id}))
  {
    assert CompositesOf(key, ids + {id}) == CompositesOf(key, ids) + {Composite(key, id)};
  }

  /** Queues the rewriting of one old entry, counting one per event id. */
  method QueueEntry(key: Bytes, ids: set<Bytes>, batch: seq<Op>, count: nat, ghost f: Family)
    returns (batch': seq<Op>, count': nat)
    ensures count' == count + |ids|
    ensures ApplyBatch(f, batch') == WithEmpty(ApplyBatch(f, batch), CompositesOf(key, ids)) - {key}
  {
    batch', count' := batch, count;
    var rest := ids;
    assert ApplyBatch(f, batch') == WithEmpty(ApplyBatch(f, batch), CompositesOf(key, {}));
    assert ids - rest == {};
    while rest != {}
      invariant rest <= ids
      invariant count' == count + |ids - rest|
      invariant ApplyBatch(f, batch') == WithEmpty(ApplyBatch(f, batch), CompositesOf(key, ids - rest))
    {
      var id :| id in rest;
      assert ids - (rest - {id}) == (ids - rest) + {id};
      QueueOneId(ApplyBatch(f, batch), key, ids - rest, id);
      ApplyBatchAppend(f, batch', Put(Composite(key, id), []));
      batch' := batch' + [Put(Composite(key, id), [])];
      count' := count' + 1;
      rest := rest - {id};
    }
    assert ids - rest == ids;
    ApplyBatchAppend(f, batch', Delete(key));
    batch' := batch' + [Delete(key)];
  }

  /** Rewriting one more old entry, as the batch does it, is `Rewrite` with one more key. */
  lemma RewriteOneMore(decode: Decoder, f: Family, ks: set<Bytes>, key: Bytes)
    requires key in OldKeys(decode, f)
    ensures Rewrite(decode, f, ks + {key})
         == WithEmpty(Rewrite(decode, f, ks), CompositesOf(key, OldIds(decode, f, key))) - {key}
  {
    var before, added := Composites(decode, f, ks), CompositesOf(key, OldIds(decode, f, key));
    CompositesOneMore(decode, f, ks, key);
    CompositesHaveSeparator(decode, f, ks + {key});
    assert key !in before + added;
    WithEmptyTwice(f - ks, before, added, key);
    assert f - (ks + {key}) == (f - ks) - {key};
  }

  lemma WithEmptyTwice(f: Family, a: set<Bytes>, b: set<Bytes>, k: Bytes)
    requires k !in a + b
    ensures WithEmpty(WithEmpty(f, a), b) - {k} == WithEmpty(f - {k}, a + b)
  {
  }

  lemma CompositesOneMore(decode: Decoder, f: Family, ks: set<Bytes>, key: Bytes)
    ensures Composites(decode, f, ks + {key}) == Composites(decode, f, ks) + CompositesOf(key, OldIds(decode, f, key))
  {
  }

  lemma CompositesOfNone(decode: Decoder, f: Family)
    ensures |Composites(decode, f, {})| == 0
  {
    assert Composites(decode, f, {}) == {};
  }

  lemma CompositesOneMoreCount(decode: Decoder, f: Family, ks: set<Bytes>, key: Bytes)
    requires SEPARATOR !in key && key !in ks
    ensures |Composites(decode, f, ks + {key})| == |Composites(decode, f, ks)| + |OldIds(decode, f, key)|
  {
    CompositesOneMore(decode, f, ks, key);
    assert Composites(decode, f, ks) !! CompositesOf(key, OldIds(decode, f, key)) by {
      forall id ensures Composite(key, id) !in Composites(decode, f, ks) {
        CompositesContains(decode, f, ks, key, id);
      }
    }
    CompositesOfSize(key, OldIds(decode, f, key));
  }

  lemma {:induction false} CompositesOfSize(key: Bytes, ids: set<Bytes>)
    requires SEPARATOR !in key
    ensures |CompositesOf(key, ids)| == |ids|
  {
    if ids != {} {
      var id :| id in ids;
      CompositesOfSize(key, ids - {id});
      assert Composite(key, id) !in CompositesOf(key, ids - {id}) by {
        forall id' { CompositeInjective(key, id, key, id'); }
      }
      assert CompositesOf(key, ids) == CompositesOf(key, ids - {id}) + {Composite(key, id)};
    }
  }

  function WithFamily(s: Store, cf: string, f: Family): Store {
    s.(families := s.families[cf := f])
  }

  lemma WithFamilyTwice(s: Store, cf: string, f: Family, g: Family)
    ensures WithFamily(WithFamily(s, cf, f), cf, g) == WithFamily(s, cf, g)
    ensures cf in s.families ==> WithFamily(s, cf, s.families[cf]) == s
  {
    assert s.families[cf := f][cf := g] == s.families[cf := g];
    assert cf in s.families ==> s.families[cf := s.families[cf]] == s.families;
  }

  /** `s` with the old entries `ks` of one family rewritten. */
  function Migrated(e: Engine, s: Store, cf: string, ks: set<Bytes>): Store
    requires cf in s.families
  {
    WithFamily(s, cf, Rewrite(e.decode, s.families[cf], ks))
  }

  /** Status, family names and all other families are the same. */
  predicate OnlyFamilyDiffers(s: Store, s': Store, cf: string) {
    && s'.status == s.status
    && s'.families.Keys == s.families.Keys
    && s'.families - {cf} == s.families - {cf}
  }

  lemma MigratedFrame(e: Engine, s: Store, cf: string, ks: set<Bytes>)
    requires cf in s.families
    ensures OnlyFamilyDiffers(s, Migrated(e, s, cf, ks), cf)
  {
  }

  /** The families the migration does not touch. */
  function Others(s: Store): map<string, Family> {
    s.families - (set cf | cf in MIGRATABLE)
  }

  lemma OthersStay(s: Store, s': Store, cf: string)
    requires OnlyFamilyDiffers(s, s', cf) && cf in MIGRATABLE
    ensures Others(s') == Others(s)
  {
    forall k | k in Others(s) ensures s'.families[k] == s.families[k] {
      assert s.families[k] == (s.families - {cf})[k] == (s'.families - {cf})[k];
    }
    assert Others(s').Keys == Others(s).Keys;
  }

  /** The first `n` migratable families have been rewritten completely, the others not at all. */
  predicate RewrittenBelow(e: Engine, s0: Store, s: Store, n: nat) {
    && HasFamilies(s0)
    && s.families.Keys == s0.families.Keys
    && forall i :: 0 <= i < |MIGRATABLE| ==>
         var f0 := s0.families[MIGRATABLE[i]];
         s.families[MIGRATABLE[i]] == if i < n then Rewrite(e.decode, f0, OldKeys(e.decode, f0)) else f0
  }

  predicate FullyRewritten(e: Engine, s0: Store, s: Store) {
    RewrittenBelow(e, s0, s, |MIGRATABLE|)
  }

  lemma RewrittenBelowStep(e: Engine, s0: Store, s: Store, s': Store, n: nat)
    requires n < |MIGRATABLE|
    requires RewrittenBelow(e, s0, s, n)
    requires s' == Migrated(e, s, MIGRATABLE[n], OldKeys(e.decode, s.families[MIGRATABLE[n]]))
    ensures RewrittenBelow(e, s0, s', n + 1)
  {
    forall i | 0 <= i < |MIGRATABLE| && i != n ensures MIGRATABLE[i] != MIGRATABLE[n] {
      assert MIGRATABLE[0][0] == 'r' && MIGRATABLE[0][1] == 'e';
      assert MIGRATABLE[1][0] == 'm';
      assert MIGRATABLE[2][0] == 'r' && MIGRATABLE[2][1] == 'u';
      assert MIGRATABLE[3][0] == 't';
    }
  }

  lemma FullyRewrittenIsClean(e: Engine, s0: Store, s: Store)
    requires FullyRewritten(e, s0, s)
    ensures HasFamilies(s) && Clean(e, s)
  {
    forall i | 0 <= i < |MIGRATABLE| ensures OldKeys(e.decode, s.families[MIGRATABLE[i]]) == {} {
      var f0 := s0.families[MIGRATABLE[i]];
      RewriteOldKeys(e.decode, f0, OldKeys(e.decode, f0));
    }
  }

  /** The four families have been converted entry by entry. */
  ghost predicate AllConverted(e: Engine, s0: Store, s: Store) {
    forall cf :: cf in {"record_idx", "model_idx", "run_idx", "tenant_idx"} ==>
      cf in s0.families && cf in s.families && Converted(e.decode, s0.families[cf], s.families[cf])
  }

  lemma FullyRewrittenIsConverted(e: Engine, s0: Store, s: Store)
    requires FullyRewritten(e, s0, s)
    ensures AllConverted(e, s0, s)
  {
    forall i | 0 <= i < |MIGRATABLE|
      ensures Converted(e.decode, s0.families[MIGRATABLE[i]], s.families[MIGRATABLE[i]])
    {
      RewriteConverts(e.decode, s0.families[MIGRATABLE[i]]);
    }
    assert MIGRATABLE[0] == "record_idx" && MIGRATABLE[1] == "model_idx" && MIGRATABLE[2] == "run_idx"
        && MIGRATABLE[3] == "tenant_idx";
  }

  /** `handled` holds the keys of `all` among the first `i`, and none of the later keys. */
  ghost predicate Visited(keys: seq<Bytes>, i: nat, all: set<Bytes>, handled: set<Bytes>) {
    && (forall j :: 0 <= j < i && j < |keys| && keys[j] in all ==> keys[j] in handled)
    && (forall j :: i <= j < |keys| ==> keys[j] !in handled)
  }

  lemma VisitedStep(keys: seq<Bytes>, i: nat, all: set<Bytes>, handled: set<Bytes>, handled': set<Bytes>)
    requires i < |keys| && Visited(keys, i, all, handled)
    requires forall j :: i < j < |keys| ==> keys[j] != keys[i]
    requires handled <= handled' <= handled + {keys[i]}
    requires keys[i] in all ==> keys[i] in handled'
    ensures Visited(keys, i + 1, all, handled')
  {
  }

  lemma VisitedAll(keys: seq<Bytes>, f: Family, all: set<Bytes>, handled: set<Bytes>)
    requires Enumerates(keys, f) && all <= f.Keys
    requires Visited(keys, |keys|, all, handled) && handled <= all
    ensures handled == all
  {
  }

  class Database {
    const engine: Engine
    var store: Store
    ghost var committed: seq<Store>
    ghost var failures: nat

    ghost predicate Valid()
      reads this
    {
      && Run(engine, committed)
      && committed[|committed| - 1] == store
    }

    constructor (engine: Engine, store: Store)
      ensures Valid()
      ensures this.engine == engine && this.store == store && committed == [store]
    {
      this.engine, this.store := engine, store;
      committed, failures := [store], 0;
    }

    /** One atomic write.  It either commits `next` or leaves the database alone. */
    method Commit(next: Store) returns (ok: bool)
      requires Valid() && Next(engine, store, next)
      modifies this
      ensures Valid()
      ensures ok ==> store == next && committed == old(committed) + [next]
      ensures !ok ==> store == old(store) && committed == old(committed)
      ensures failures == old(failures) + if ok then 0 else 1
    {
      ok := *;
      if ok {
        store, committed := next, committed + [next];
      } else {
        failures := failures + 1;
      }
    }

    method HasOldFormatSample() returns (found: bool)
      requires Valid() && Faithful(engine)
      ensures found <==> HasOldFormatData(engine, store)
    {
      if MIGRATABLE[0] !in store.families {
        return false;
      }
      var f := store.families[MIGRATABLE[0]];
      var keys := engine.scan(f);
      var limit := if |keys| < 5 then |keys| else 5;
      for i := 0 to limit
        invariant forall j :: 0 <= j < i ==> f[keys[j]] == [] || engine.decode(f[keys[j]]).None?
      {
        if f[keys[i]] != [] && engine.decode(f[keys[i]]).Some? {
          return true;
        }
      }
      return false;
    }

    method GetMigrationStatus() returns (status: MigrationStatus)
      requires Valid() && Faithful(engine)
      ensures status == DetectStatus(engine, store)
    {
      match store.status
      case Some(text) =>
        if text == "migrating" { return Migrating; }
        if text == "complete" { return Complete; }
        return OldFormat;
      case None =>
        var found := HasOldFormatSample();
        return if found then OldFormat else Complete;
    }

    /** Commits a batch that takes the family from the entries flushed so far to those handled so far. */
    method Flush(cf: string, batch: seq<Op>, ghost snapshot: Family, ghost flushed: set<Bytes>, ghost handled: set<Bytes>)
      returns (ok: bool)
      requires Valid() && cf in store.families
      requires flushed <= handled <= OldKeys(engine.decode, snapshot)
      requires store.families[cf] == Rewrite(engine.decode, snapshot, flushed)
      requires ApplyBatch(store.families[cf], batch) == Rewrite(engine.decode, snapshot, handled)
      modifies this
      ensures Valid()
      ensures ok ==> committed == old(committed) + [store] &&
                     store == WithFamily(old(store), cf, Rewrite(engine.decode, snapshot, handled))
      ensures !ok ==> store == old(store) && committed == old(committed)
      ensures failures == old(failures) + if ok then 0 else 1
    {
      var next := store.(families := store.families[cf := ApplyBatch(store.families[cf], batch)]);
      assert CommitBatch(engine, store, next, cf, handled - flushed) by {
        RewriteOldKeys(engine.decode, snapshot, flushed);
        RewriteCompose(engine.decode, snapshot, flushed, handled - flushed);
        assert flushed + (handled - flushed) == handled;
      }
      ok := Commit(next);
    }

    /**
      The loop invariant of a family's migration from state `s0`: `flushed` is committed, the batch
      takes the family to `handled`, the count is what `handled` stands for, and the commit guard
      never strands a queued write.
    */
    ghost predicate Underway(cf: string, s0: Store, handled: set<Bytes>, flushed: set<Bytes>, batch: seq<Op>, count: nat)
      reads this
    {
      && cf in s0.families
      && flushed <= handled <= OldKeys(engine.decode, s0.families[cf])
      && store == Migrated(engine, s0, cf, flushed)
      && ApplyBatch(store.families[cf], batch) == Rewrite(engine.decode, s0.families[cf], handled)
      && count == |Composites(engine.decode, s0.families[cf], handled)|
      && (count % BATCH_SIZE == 0 ==> batch == [] && flushed == handled)
    }

    /** Queues one old entry and commits the batch if the running count is a multiple of the batch size. */
    method MigrateEntry(cf: string, key: Bytes, ids: set<Bytes>, batch: seq<Op>, count: nat,
                        ghost s0: Store, ghost handled: set<Bytes>, ghost flushed: set<Bytes>)
      returns (ok: bool, batch': seq<Op>, count': nat, ghost flushed': set<Bytes>)
      requires Valid() && Underway(cf, s0, handled, flushed, batch, count)
      requires key in OldKeys(engine.decode, s0.families[cf]) - handled
      requires ids == OldIds(engine.decode, s0.families[cf], key)
      modifies this
      ensures Valid() && old(committed) <= committed
      ensures ok ==> Underway(cf, s0, handled + {key}, flushed', batch', count')
      ensures !ok ==> store == old(store) && committed == old(committed)
      ensures failures == old(failures) + if ok then 0 else 1
    {
      RewriteOneMore(engine.decode, s0.families[cf], handled, key);
      CompositesOneMoreCount(engine.decode, s0.families[cf], handled, key);
      batch', count' := QueueEntry(key, ids, batch, count, store.families[cf]);
      ok, flushed' := true, flushed;
      if count' % BATCH_SIZE == 0 {
        WithFamilyTwice(s0, cf, store.families[cf], Rewrite(engine.decode, s0.families[cf], handled + {key}));
        ok := Flush(cf, batch', s0.families[cf], flushed, handled + {key});
        batch', flushed' := [], handled + {key};
      }
    }

    /** One turn of the loop: skips what is not an old entry, migrates what is. */
    method VisitEntry(cf: string, key: Bytes, snapshot: Family, batch: seq<Op>, count: nat,
                      ghost s0: Store, ghost handled: set<Bytes>, ghost flushed: set<Bytes>)
      returns (ok: bool, batch': seq<Op>, count': nat, ghost handled': set<Bytes>, ghost flushed': set<Bytes>)
      requires Valid() && Underway(cf, s0, handled, flushed, batch, count)
      requires snapshot == s0.families[cf] && key in snapshot && key !in handled
      modifies this
      ensures Valid() && old(committed) <= committed
      ensures OnlyFamilyDiffers(s0, store, cf)
      ensures handled <= handled' <= handled + {key}
      ensures key in OldKeys(engine.decode, snapshot) ==> key in handled'
      ensures ok ==> Underway(cf, s0, handled', flushed', batch', count')
      ensures key !in OldKeys(engine.decode, snapshot) ==> ok && committed == old(committed)
      ensures !ok ==> store == old(store) && committed == old(committed)
      ensures failures == old(failures) + if ok then 0 else 1
    {
      ok, batch', count', handled', flushed' := true, batch, count, handled, flushed;
      MigratedFrame(engine, s0, cf, flushed);
      var value := snapshot[key];
      if value == [] || SEPARATOR in key {
        return;
      }
      match engine.decode(value)
      case Some(ids) =>
        handled' := handled + {key};
        ok, batch', count', flushed' := MigrateEntry(cf, key, ids, batch, count, s0, handled, flushed);
        MigratedFrame(engine, s0, cf, flushed');
      case None =>
    }

    /** The loop over a snapshot of the family. */
    method MigrateEntries(cf: string)
      returns (ok: bool, batch: seq<Op>, count: nat, ghost flushed: set<Bytes>)
      requires Valid() && Faithful(engine) && cf in store.families
      modifies this
      ensures Valid() && old(committed) <= committed
      ensures OnlyFamilyDiffers(old(store), store, cf)
      ensures var all := OldKeys(engine.decode, old(store).families[cf]);
              && (ok ==> Underway(cf, old(store), all, flushed, batch, count))
              && (all == {} ==> ok && committed == old(committed))
      ensures failures == old(failures) + if ok then 0 else 1
    {
      batch, count, flushed := [], 0, {};
      var snapshot := store.families[cf];
      var keys := engine.scan(snapshot);
      ghost var all := OldKeys(engine.decode, snapshot);
      UnderwayAtStart(cf);
      ghost var handled: set<Bytes> := {};
      for i := 0 to |keys|
        invariant Valid() && old(committed) <= committed
        invariant OnlyFamilyDiffers(old(store), store, cf)
        invariant Underway(cf, old(store), handled, flushed, batch, count)
        invariant Visited(keys, i, all, handled)
        invariant all == {} ==> committed == old(committed)
        invariant failures == old(failures)
      {
        ghost var before := handled;
        ok, batch, count, handled, flushed :=
          VisitEntry(cf, keys[i], snapshot, batch, count, old(store), handled, flushed);
        if !ok {
          return;
        }
        VisitedStep(keys, i, all, before, handled);
      }
      VisitedAll(keys, snapshot, all, handled);
      ok := true;
    }

    lemma UnderwayAtStart(cf: string)
      requires cf in store.families
      ensures Underway(cf, store, {}, {}, [], 0)
    {
      RewriteNothing(engine.decode, store.families[cf]);
      WithFamilyTwice(store, cf, store.families[cf], store.families[cf]);
      CompositesOfNone(engine.decode, store.families[cf]);
    }

    /** The conditional write after the loop. */
    method FlushRest(cf: string, batch: seq<Op>, count: nat,
                     ghost s0: Store, ghost handled: set<Bytes>, ghost flushed: set<Bytes>)
      returns (ok: bool)
      requires Valid() && Underway(cf, s0, handled, flushed, batch, count)
      modifies this
      ensures Valid() && old(committed) <= committed
      ensures OnlyFamilyDiffers(s0, store, cf)
      ensures ok ==> store == Migrated(engine, s0, cf, handled) &&
                     count == |Composites(engine.decode, s0.families[cf], handled)|
      ensures handled == {} ==> committed == old(committed) && count == 0
      ensures failures == old(failures) + if ok then 0 else 1
    {
      ok := true;
      MigratedFrame(engine, s0, cf, flushed);
      assert handled == {} ==> count == 0 by { CompositesOfNone(engine.decode, s0.families[cf]); }
      if count % BATCH_SIZE != 0 {
        WithFamilyTwice(s0, cf, store.families[cf], Rewrite(engine.decode, s0.families[cf], handled));
        ok := Flush(cf, batch, s0.families[cf], flushed, handled);
        MigratedFrame(engine, s0, cf, handled);
      }
    }

    /**
      Migrates one family.  No queued write is lost: on success every old entry of the snapshot has
      been rewritten, and the count is the number of composite keys those entries stand for.
    */
    method MigrateColumnFamily(cf: string) returns (r: Result<nat>)
      requires Valid() && Faithful(engine)
      modifies this
      ensures Valid() && old(committed) <= committed
      ensures OnlyFamilyDiffers(old(store), store, cf)
      ensures r.Ok? ==>
                cf in old(store).families &&
                var f0 := old(store).families[cf];
                var ks := OldKeys(engine.decode, f0);
                store == Migrated(engine, old(store), cf, ks) &&
                r.value == |Composites(engine.decode, f0, ks)| &&
                (ks == {} ==> committed == old(committed) && r.value == 0)
      ensures cf !in old(store).families ==>
                r.Err? && store == old(store) && committed == old(committed) && failures == old(failures)
      ensures cf in old(store).families ==> failures == old(failures) + if r.Ok? then 0 else 1
    {
      if cf !in store.families {
        return Err("Column family not found");
      }
      ghost var all := OldKeys(engine.decode, store.families[cf]);
      var ok, batch, count, flushed := MigrateEntries(cf);
      if !ok {
        return Err("write failed");
      }
      ok := FlushRest(cf, batch, count, old(store), all, flushed);
      return if ok then Ok(count) else Err("write failed");
    }

    /**
      Migrates the four families in turn.  On success each has been rewritten completely.
    */
    method MigrateFamilies() returns (r: Result<nat>)
      requires Valid() && Faithful(engine) && HasFamilies(store)
      modifies this
      ensures Valid() && old(committed) <= committed
      ensures store.status == old(store).status && Others(store) == Others(old(store))
      ensures r.Ok? ==> FullyRewritten(engine, old(store), store)
      ensures failures == old(failures) + if r.Ok? then 0 else 1
    {
      var total := 0;
      for i := 0 to |MIGRATABLE|
        invariant Valid() && old(committed) <= committed
        invariant store.status == old(store).status && Others(store) == Others(old(store))
        invariant RewrittenBelow(engine, old(store), store, i)
        invariant failures == old(failures)
      {
        ghost var before := store;
        var count := MigrateColumnFamily(MIGRATABLE[i]);
        OthersStay(before, store, MIGRATABLE[i]);
        if count.Err? {
          return Err(count.message);
        }
        RewrittenBelowStep(engine, old(store), before, store, i);
        total := total + count.value;
      }
      return Ok(total);
    }

    /**
      Migrates the whole database.  Whatever the outcome, the committed states form a run of the
      protocol, so `RunPreservesIndex` and `CompletedRunIsOneRewrite` apply to them.  On success the
      database is clean exactly when the detected status was not already "complete" or it was clean
      to begin with, and every family has been converted entry by entry.  An error has a cause: a
      family is missing, or exactly one write has failed, after which nothing more was attempted.
    */
    method MigrateDatabase() returns (r: Result<()>)
      requires Valid() && Faithful(engine)
      modifies this
      ensures Valid() && old(committed) <= committed
      ensures Others(store) == Others(old(store))
      ensures r.Ok? ==> (Clean(engine, store) <==>
                           DetectStatus(engine, old(store)) != Complete || Clean(engine, old(store)))
      ensures r.Ok? && DetectStatus(engine, old(store)) != Complete ==>
                store.status == Some(StatusText(Complete)) && FullyRewritten(engine, old(store), store)
      ensures DetectStatus(engine, old(store)) == Complete ==>
                store == old(store) && committed == old(committed) && (r.Ok? <==> HasFamilies(old(store)))
      ensures !HasFamilies(old(store)) ==> r.Err? && committed == old(committed) && failures == old(failures)
      ensures HasFamilies(old(store)) ==> failures == old(failures) + if r.Ok? then 0 else 1
      ensures r.Ok? && DetectStatus(engine, old(store)) != Complete ==> AllConverted(engine, old(store), store)
    {
      if !HasFamilies(store) {
        return Err("Failed to open database for migration");
      }
      var status := GetMigrationStatus();
      if status == Complete {
        return Ok(());
      }
      if status == OldFormat {
        var begin := store.(status := Some(StatusText(Migrating)));
        assert Start(engine, store, begin);
        var ok := Commit(begin);
        if !ok {
          return Err("write failed");
        }
      }
      var total := MigrateFamilies();
      if total.Err? {
        return Err(total.message);
      }
      FullyRewrittenIsClean(engine, old(store), store);
      FullyRewrittenIsConverted(engine, old(store), store);
      var end := store.(status := Some(StatusText(Complete)));
      assert Finish(engine, store, end);
      var ok := Commit(end);
      if !ok {
        return Err("write failed");
      }
      return Ok(());
    }

    /** Rebuilds the index from the new format alone, as the post-migration validation does. */
    method DecodeNewFormat(cf: string) returns (r: Result<map<Bytes, set<Bytes>>>)
      requires Valid() && Faithful(engine)
      ensures r.Ok? <==> cf in store.families
      ensures r.Ok? ==> forall k :: (k in r.value <==> CompositeIds(store.families[cf], k) != {}) &&
                                    (k in r.value ==> r.value[k] == CompositeIds(store.families[cf], k))
    {
      if cf !in store.families {
        return Err("Column family not found");
      }
      var f := store.families[cf];
      var keys := engine.scan(f);
      var index: map<Bytes, set<Bytes>> := map[];
      for i := 0 to |keys|
        invariant forall k :: (k in index <==> IdsAmong(keys[..i], k) != {}) &&
                              (k in index ==> index[k] == IdsAmong(keys[..i], k))
      {
        IdsAmongAppend(keys[..i], keys[i]);
        assert keys[..i + 1] == keys[..i] + [keys[i]];
        match Split(keys[i])
        case Some((prefix, id)) =>
          index := index[prefix := (if prefix in index then index[prefix] else {}) + {id}];
        case None =>
      }
      assert keys[..|keys|] == keys;
      forall k ensures IdsAmong(keys, k) == CompositeIds(f, k) { }
      return Ok(index);
    }
  }

  function IdsAmong(keys: seq<Bytes>, k: Bytes): set<Bytes> {
    set c | c in keys && IsCompositeOf(c, k) :: Split(c).value.1
  }

  lemma IdsAmongAppend(keys: seq<Bytes>, c: Bytes)
    ensures forall k :: IdsAmong(keys + [c], k) ==
                        IdsAmong(keys, k) + (if IsCompositeOf(c, k) then {Split(c).value.1} else {})
  {
    forall k
      ensures IdsAmong(keys + [c], k) ==
              IdsAmong(keys, k) + (if IsCompositeOf(c, k) then {Split(c).value.1} else {})
    {
      assert forall x :: x in keys + [c] <==> x in keys || x == c;
    }
  }
}
