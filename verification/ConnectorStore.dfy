/**
  The connector store: a map in memory, rewritten into the prefixed part of a RocksDB on every
  upsert, reloaded on open, and seeded once from a legacy file.
*/
module ConnectorStore {
  import opened Common
  import opened Text

  datatype Connector = Connector(id: string, settings: string)

  type Connectors = map<string, Connector>
  type Db = map<string, string>

  /** Serialization of a connector; None stands for a decoding error. */
  datatype Codec = Codec(encode: Connector -> string, decode: string -> Option<Connector>)

  ghost predicate RoundTrips(codec: Codec) {
    forall c: Connector :: codec.decode(codec.encode(c)) == Some(c)
  }

  const PREFIX := "connector:"

  function KeyOf(id: string): string {
    PREFIX + id
  }

  predicate IsConnectorKey(k: string) {
    HasPrefix(k, PREFIX)
  }

  function IdOf(k: string): string
    requires IsConnectorKey(k)
  {
    k[|PREFIX|..]
  }

  lemma KeyOfProps(id: string)
    ensures IsConnectorKey(KeyOf(id)) && IdOf(KeyOf(id)) == id
  {
  }

  lemma IdOfProps(k: string)
    requires IsConnectorKey(k)
    ensures KeyOf(IdOf(k)) == k
  {
  }

  // ----- load and persist, as functions -----

  predicate Decodable(codec: Codec, db: Db) {
    forall k :: k in db && IsConnectorKey(k) ==> codec.decode(db[k]).Some?
  }

  function Ids(db: Db): set<string> {
    set k | k in db && IsConnectorKey(k) :: IdOf(k)
  }

  lemma IdsContains(db: Db, id: string)
    ensures id in Ids(db) <==> KeyOf(id) in db
  {
    KeyOfProps(id);
    if id in Ids(db) {
      var k :| k in db && IsConnectorKey(k) && IdOf(k) == id;
      IdOfProps(k);
    }
  }

  ghost function Loaded(codec: Codec, db: Db): Connectors
    requires Decodable(codec, db)
  {
    map id | id in Ids(db) && KeyOf(id) in db && codec.decode(db[KeyOf(id)]).Some? ::
      codec.decode(db[KeyOf(id)]).value
  }

  /** `cs` is what the database holds. */
  ghost predicate Holds(codec: Codec, db: Db, cs: Connectors) {
    && (forall id :: id in cs <==> KeyOf(id) in db)
    && (forall id :: id in cs ==> codec.decode(db[KeyOf(id)]) == Some(cs[id]))
  }

  lemma HoldsIsLoaded(codec: Codec, db: Db, cs: Connectors)
    requires Holds(codec, db, cs)
    ensures Decodable(codec, db) && Loaded(codec, db) == cs
  {
    forall k | k in db && IsConnectorKey(k) ensures codec.decode(db[k]).Some? {
      IdOfProps(k);
      assert IdOf(k) in cs;
    }
    forall id ensures id in Loaded(codec, db) <==> id in cs {
      IdsContains(db, id);
      KeyOfProps(id);
    }
  }

  /** Nothing outside the prefix differs. */
  ghost predicate SameElsewhere(a: Db, b: Db) {
    forall k :: !HasPrefix(k, "connector:") ==> (k in a <==> k in b) && (k in a && k in b ==> a[k] == b[k])
  }

  // ----- the store -----

  datatype Op = Put(key: string, value: string) | Delete(key: string)

  function ApplyOp(db: Db, op: Op): Db {
    match op
    case Put(k, v) => db[k := v]
    case Delete(k) => db - {k}
  }

  function ApplyBatch(db: Db, batch: seq<Op>): Db {
    if batch == [] then db else ApplyOp(ApplyBatch(db, batch[..|batch| - 1]), batch[|batch| - 1])
  }

  lemma ApplyBatchAppend(db: Db, batch: seq<Op>, op: Op)
    ensures ApplyBatch(db, batch + [op]) == ApplyOp(ApplyBatch(db, batch), op)
  {
    assert (batch + [op])[..|batch|] == batch;
  }

  /** The batch that clears the prefixed keys and writes the given connectors. */
  method PersistBatch(codec: Codec, db: Db, cs: Connectors) returns (batch: seq<Op>)
    requires RoundTrips(codec)
    ensures Holds(codec, ApplyBatch(db, batch), cs)
    ensures SameElsewhere(db, ApplyBatch(db, batch))
  {
    batch := QueueDeletes(db);
    var cleared := batch;
    var rest := cs.Keys;
    while rest != {}
      invariant rest <= cs.Keys
      invariant Written(codec, ApplyBatch(db, batch), cs, cs.Keys - rest)
      invariant SameElsewhere(db, ApplyBatch(db, batch))
    {
      var id :| id in rest;
      ApplyBatchAppend(db, batch, Put(KeyOf(id), codec.encode(cs[id])));
      WrittenStep(codec, ApplyBatch(db, batch), cs, cs.Keys - rest, id);
      batch := batch + [Put(KeyOf(id), codec.encode(cs[id]))];
      rest := rest - {id};
      assert cs.Keys - rest == cs.Keys - (rest + {id}) + {id};
    }
  }

  /** The connectors with ids in `done` are in the database, and no others. */
  ghost predicate Written(codec: Codec, db: Db, cs: Connectors, done: set<string>)
    requires done <= cs.Keys
  {
    && (forall id :: id in done <==> KeyOf(id) in db)
    && (forall id :: id in done ==> codec.decode(db[KeyOf(id)]) == Some(cs[id]))
  }

  lemma WrittenStep(codec: Codec, db: Db, cs: Connectors, done: set<string>, id: string)
    requires RoundTrips(codec) && done <= cs.Keys && id in cs && Written(codec, db, cs, done)
    ensures var db' := db[KeyOf(id) := codec.encode(cs[id])];
            Written(codec, db', cs, done + {id}) && SameElsewhere(db, db')
  {
    KeyOfProps(id);
    forall other ensures KeyOf(other) == KeyOf(id) ==> other == id { KeyOfProps(other); }
  }

  method QueueDeletes(db: Db) returns (batch: seq<Op>)
    ensures forall id :: KeyOf(id) !in ApplyBatch(db, batch)
    ensures SameElsewhere(db, ApplyBatch(db, batch))
  {
    batch := [];
    var rest := db.Keys;
    while rest != {}
      invariant rest <= db.Keys
      invariant ApplyBatch(db, batch).Keys <= db.Keys
      invariant forall k :: k in ApplyBatch(db, batch) && IsConnectorKey(k) ==> k in rest
      invariant SameElsewhere(db, ApplyBatch(db, batch))
    {
      var k :| k in rest;
      if IsConnectorKey(k) {
        ApplyBatchAppend(db, batch, Delete(k));
        batch := batch + [Delete(k)];
      }
      rest := rest - {k};
    }
    forall id ensures KeyOf(id) !in ApplyBatch(db, batch) { KeyOfProps(id); }
  }

  /** Decodes every prefixed entry; the first one that does not decode fails the load. */
  method LoadState(codec: Codec, db: Db) returns (r: Result<Connectors>)
    ensures r.Ok? <==> Decodable(codec, db)
    ensures r.Ok? ==> r.value == Loaded(codec, db)
  {
    var connectors: Connectors := map[];
    var rest := db.Keys;
    while rest != {}
      invariant rest <= db.Keys
      invariant forall k :: k in db && k !in rest && IsConnectorKey(k) ==> codec.decode(db[k]).Some?
      invariant forall id :: id in connectors <==> KeyOf(id) in db && KeyOf(id) !in rest
      invariant forall id :: id in connectors ==> codec.decode(db[KeyOf(id)]) == Some(connectors[id])
    {
      var k :| k in rest;
      rest := rest - {k};
      if IsConnectorKey(k) {
        if codec.decode(db[k]).None? {
          return Err("failed to decode connector");
        }
        IdOfProps(k);
        forall id ensures KeyOf(id) == k ==> id == IdOf(k) { KeyOfProps(id); }
        connectors := connectors[IdOf(k) := codec.decode(db[k]).value];
      } else {
        forall id ensures KeyOf(id) != k { KeyOfProps(id); }
      }
    }
    HoldsIsLoaded(codec, db, connectors);
    return Ok(connectors);
  }

  class Store {
    const codec: Codec
    var db: Db
    var state: Connectors

    /** The database holds exactly the connectors in memory. */
    ghost predicate Valid()
      reads this
    {
      RoundTrips(codec) && Holds(codec, db, state)
    }

    constructor (codec: Codec, db: Db, state: Connectors)
      ensures this.codec == codec && this.db == db && this.state == state
    {
      this.codec, this.db, this.state := codec, db, state;
    }

    /**
      Opens a database.  `legacy` is the content of the legacy file, if there is one, or an error.
      A database that already holds connectors is taken as it is, whatever the legacy file says.
    */
    static method Open(codec: Codec, db: Db, legacy: Option<Result<Connectors>>, saved: bool) returns (r: Option<Store>)
      requires RoundTrips(codec)
      ensures r.Some? ==> fresh(r.value) && r.value.codec == codec && r.value.Valid() && SameElsewhere(db, r.value.db)
      ensures r.Some? ==> Decodable(codec, db)
      ensures r.Some? && Loaded(codec, db) == map[] && legacy.Some? ==>
                legacy.value.Ok? && r.value.state == legacy.value.value
      ensures r.Some? && (Loaded(codec, db) != map[] || legacy.None?) ==>
                r.value.state == Loaded(codec, db) && r.value.db == db
      ensures r.None? <==> !Decodable(codec, db) ||
                           (Loaded(codec, db) == map[] && legacy.Some? && (legacy.value.Err? || !saved))
    {
      var loaded := LoadState(codec, db);
      if loaded.Err? {
        return None;
      }
      if loaded.value == map[] && legacy.Some? {
        if legacy.value.Err? {
          return None;
        }
        var batch := PersistBatch(codec, db, legacy.value.value);
        if !saved {
          return None;
        }
        var imported := new Store(codec, ApplyBatch(db, batch), legacy.value.value);
        return Some(imported);
      }
      LoadedHolds(codec, db);
      var existing := new Store(codec, db, loaded.value);
      return Some(existing);
    }

    /**
      Inserts in memory, then writes all connectors in memory; from any state, also the one an earlier
      failed write has left, a success makes memory and database agree.
    */
    method Upsert(c: Connector, saved: bool) returns (r: Result<Connector>)
      requires RoundTrips(codec)
      modifies this
      ensures r.Ok? <==> saved
      ensures r.Ok? ==> r.value == c && Valid()
      ensures Attempted(codec, (old(db), old(state)), (db, state), Attempt(c, saved))
    {
      state := state[c.id := c];
      var batch := PersistBatch(codec, db, state);
      if !saved {
        return Err("failed to persist connector state to RocksDB");
      }
      db := ApplyBatch(db, batch);
      return Ok(c);
    }

    method Get(id: string) returns (r: Option<Connector>)
      ensures r == if id in state then Some(state[id]) else None
    {
      r := if id in state then Some(state[id]) else None;
    }
  }

  lemma LoadedHolds(codec: Codec, db: Db)
    requires Decodable(codec, db)
    ensures Holds(codec, db, Loaded(codec, db))
  {
    forall id ensures id in Loaded(codec, db) <==> KeyOf(id) in db {
      IdsContains(db, id);
      KeyOfProps(id);
    }
  }

  // ----- reopening -----

  /** The last connector written under each id, over what was there before. */
  function LastWritten(base: Connectors, cs: seq<Connector>): Connectors {
    if cs == [] then base else LastWritten(base, cs[..|cs| - 1])[cs[|cs| - 1].id := cs[|cs| - 1]]
  }

  /** An id maps to the last connector written under it. */
  lemma {:induction false} LastWrittenIsLast(base: Connectors, cs: seq<Connector>, i: nat)
    requires i < |cs| && forall j :: i < j < |cs| ==> cs[j].id != cs[i].id
    ensures cs[i].id in LastWritten(base, cs) && LastWritten(base, cs)[cs[i].id] == cs[i]
  {
    if i < |cs| - 1 {
      LastWrittenIsLast(base, cs[..|cs| - 1], i);
    }
  }

  /** An id under which nothing was written maps to what was there. */
  lemma {:induction false} UnwrittenStays(base: Connectors, cs: seq<Connector>, id: string)
    requires forall j :: 0 <= j < |cs| ==> cs[j].id != id
    ensures id in LastWritten(base, cs) <==> id in base
    ensures id in base ==> LastWritten(base, cs)[id] == base[id]
  {
    if cs != [] {
      UnwrittenStays(base, cs[..|cs| - 1], id);
    }
  }

  datatype Attempt = Attempt(connector: Connector, saved: bool)

  /** An upsert, successful or not, as `Store.Upsert` promises it. */
  ghost predicate Attempted(codec: Codec, before: (Db, Connectors), after: (Db, Connectors), a: Attempt) {
    && after.1 == before.1[a.connector.id := a.connector]
    && if a.saved then Holds(codec, after.0, after.1) && SameElsewhere(before.0, after.0) else after.0 == before.0
  }

  ghost predicate Attempts(codec: Codec, run: seq<(Db, Connectors)>, attempts: seq<Attempt>) {
    && |run| == |attempts| + 1
    && Holds(codec, run[0].0, run[0].1)
    && forall i :: 0 <= i < |attempts| ==> Attempted(codec, run[i], run[i + 1], attempts[i])
  }

  /** The connectors of the first `n` attempts. */
  function FirstConnectors(attempts: seq<Attempt>, n: nat): seq<Connector>
    requires n <= |attempts|
  {
    seq(n, i requires 0 <= i < n => attempts[i].connector)
  }

  lemma FirstConnectorsPrefix(attempts: seq<Attempt>, n: nat)
    requires n < |attempts|
    ensures forall m :: 0 <= m <= n ==> FirstConnectors(attempts[..n], m) == FirstConnectors(attempts, m)
    ensures FirstConnectors(attempts, n + 1)[..n] == FirstConnectors(attempts, n)
  {
  }

  /** How many attempts there are up to the last successful one. */
  function Durable(attempts: seq<Attempt>): nat
    ensures Durable(attempts) <= |attempts|
  {
    if attempts == [] then 0
    else if attempts[|attempts| - 1].saved then |attempts|
    else Durable(attempts[..|attempts| - 1])
  }

  /**
    After any sequence of upserts, memory shows the last connector of every attempt, and loading the
    database gives the last connectors of all attempts up to the last successful one, failed ones
    included: a success makes the earlier failures durable.  No key outside the prefix has changed.
    Once an upsert has succeeded the loaded map is not empty, so `Store.Open` takes it as it is,
    whatever legacy file it is offered.
  */
  lemma ReopenShowsLastWritten(codec: Codec, run: seq<(Db, Connectors)>, attempts: seq<Attempt>)
    requires Attempts(codec, run, attempts)
    ensures var last, durable := run[|attempts|], LastWritten(run[0].1, FirstConnectors(attempts, Durable(attempts)));
            && last.1 == LastWritten(run[0].1, FirstConnectors(attempts, |attempts|))
            && Holds(codec, last.0, durable)
            && Decodable(codec, last.0) && Loaded(codec, last.0) == durable
            && SameElsewhere(run[0].0, last.0)
            && (Durable(attempts) > 0 ==> Loaded(codec, last.0) != map[])
  {
    AttemptsKeep(codec, run, attempts);
    var cs := FirstConnectors(attempts, Durable(attempts));
    HoldsIsLoaded(codec, run[|attempts|].0, LastWritten(run[0].1, cs));
    if cs != [] {
      assert cs[|cs| - 1].id in LastWritten(run[0].1, cs);
    }
  }

  /** What `last` is after `attempts` from `first`. */
  ghost predicate Reached(codec: Codec, first: (Db, Connectors), last: (Db, Connectors), attempts: seq<Attempt>) {
    && last.1 == LastWritten(first.1, FirstConnectors(attempts, |attempts|))
    && Holds(codec, last.0, LastWritten(first.1, FirstConnectors(attempts, Durable(attempts))))
    && SameElsewhere(first.0, last.0)
  }

  lemma {:induction false} AttemptsKeep(codec: Codec, run: seq<(Db, Connectors)>, attempts: seq<Attempt>)
    requires Attempts(codec, run, attempts)
    ensures Reached(codec, run[0], run[|attempts|], attempts)
  {
    var n := |attempts|;
    if n > 0 {
      AttemptsPrefix(codec, run, attempts);
      AttemptsKeep(codec, run[..n], attempts[..n - 1]);
      assert run[..n][0] == run[0] && run[..n][n - 1] == run[n - 1];
      assert Attempted(codec, run[n - 1], run[n], attempts[n - 1]);
      ReachedStep(codec, run[0], run[n - 1], run[n], attempts);
    }
  }

  lemma ReachedStep(codec: Codec, first: (Db, Connectors), before: (Db, Connectors), after: (Db, Connectors),
                    attempts: seq<Attempt>)
    requires attempts != []
    requires Reached(codec, first, before, attempts[..|attempts| - 1])
    requires Attempted(codec, before, after, attempts[|attempts| - 1])
    ensures Reached(codec, first, after, attempts)
  {
    var n := |attempts|;
    FirstConnectorsPrefix(attempts, n - 1);
    var all := FirstConnectors(attempts, n);
    assert LastWritten(first.1, all) == LastWritten(first.1, all[..n - 1])[all[n - 1].id := all[n - 1]];
    if attempts[n - 1].saved {
      SameElsewhereTransitive(first.0, before.0, after.0);
    }
  }

  lemma AttemptsPrefix(codec: Codec, run: seq<(Db, Connectors)>, attempts: seq<Attempt>)
    requires Attempts(codec, run, attempts) && attempts != []
    ensures Attempts(codec, run[..|attempts|], attempts[..|attempts| - 1])
  {
    var n := |attempts|;
    forall i | 0 <= i < n - 1 ensures Attempted(codec, run[..n][i], run[..n][i + 1], attempts[..n - 1][i]) {
      assert run[..n][i] == run[i] && run[..n][i + 1] == run[i + 1];
    }
  }

  /**
    Memory and database agree after a run exactly when the failed attempts since the last success
    have changed nothing.
  */
  lemma AgreementIff(codec: Codec, run: seq<(Db, Connectors)>, attempts: seq<Attempt>)
    requires Attempts(codec, run, attempts)
    ensures Holds(codec, run[|attempts|].0, run[|attempts|].1) <==>
              LastWritten(run[0].1, FirstConnectors(attempts, |attempts|)) ==
              LastWritten(run[0].1, FirstConnectors(attempts, Durable(attempts)))
  {
    ReopenShowsLastWritten(codec, run, attempts);
    if Holds(codec, run[|attempts|].0, run[|attempts|].1) {
      HoldsIsLoaded(codec, run[|attempts|].0, run[|attempts|].1);
    }
  }

  lemma SameElsewhereTransitive(a: Db, b: Db, c: Db)
    requires SameElsewhere(a, b) && SameElsewhere(b, c)
    ensures SameElsewhere(a, c)
  {
  }
}
