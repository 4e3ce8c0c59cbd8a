/**
  The catalog as the object that serves requests: the memory map, the database and the secret
  store, updated in place.  Every method is tied to the events of `CatalogModel`, and the credential
  migration also to a pass of `CredentialMigration`.
*/
module CatalogStore {
  import opened Common
  import opened SourceTypes
  import opened CatalogModel
  import C = Credentials
  import M = CredentialMigration

  /** The data sources of a map of responses. */
  function Sources(rs: Responses): M.Records {
    map id | id in rs :: rs[id].source
  }

  lemma SourcesUpdate(rs: Responses, id: string, r: Response)
    ensures Sources(rs[id := r]) == Sources(rs)[id := r.source]
  {
  }

  /** The same ids, with the same statuses, test results and capabilities. */
  ghost predicate OnlySourcesDiffer(a: Responses, b: Responses) {
    a.Keys == b.Keys && forall id :: id in a ==> b[id] == a[id].(source := b[id].source)
  }

  lemma OnlySourcesDifferTransitive(a: Responses, b: Responses, c: Responses)
    requires OnlySourcesDiffer(a, b) && OnlySourcesDiffer(b, c)
    ensures OnlySourcesDiffer(a, c)
  {
    forall id | id in a ensures c[id] == a[id].(source := c[id].source) {
      assert b[id] == a[id].(source := b[id].source);
    }
  }

  // ----- the credential migration seen from the records -----

  ghost predicate AreTurns(es: seq<Event>) {
    forall i :: 0 <= i < |es| ==> es[i].MigrateRecord?
  }

  /** The turns meet the given outcomes of the store calls and of the saves. */
  ghost predicate Outcomes(es: seq<Event>, calls: string -> C.StoreOutcome, saves: string -> bool)
    requires AreTurns(es)
  {
    forall i :: 0 <= i < |es| ==> es[i].secretCalls == calls(es[i].id) && es[i].saved == saves(es[i].id)
  }

  ghost function TurnIds(es: seq<Event>): set<string>
    requires AreTurns(es)
  {
    if es == [] then {} else TurnIds(es[..|es| - 1]) + {es[|es| - 1].id}
  }

  lemma AppendTurn(env: Env, c: Catalog, es: seq<Event>, e: Event)
    requires AreTurns(es) && e.MigrateRecord?
    ensures AreTurns(es + [e]) && TurnIds(es + [e]) == TurnIds(es) + {e.id}
    ensures Run(env, c, es + [e]) == Apply(env, Run(env, c, es), e)
  {
    assert (es + [e])[..|es|] == es;
  }

  ghost function Turns(es: seq<Event>): seq<M.Event>
    requires AreTurns(es)
  {
    if es == [] then []
    else
      var e := es[|es| - 1];
      Turns(es[..|es| - 1]) + [M.PromoteRecord(e.id, e.secretCalls, e.saved)]
  }

  ghost function VaultOf(c: Catalog): M.Vault
    requires c.secrets.Some?
  {
    M.Vault(Sources(c.memory), Sources(c.disk), c.secrets.value)
  }

  lemma TurnIsStep(env: Env, c: Catalog, e: Event)
    requires c.secrets.Some? && e.MigrateRecord?
    ensures var c' := Apply(env, c, e);
            && c'.secrets.Some?
            && VaultOf(c') == M.Step(env.secrets, VaultOf(c), M.PromoteRecord(e.id, e.secretCalls, e.saved))
            && OnlySourcesDiffer(c.memory, c'.memory)
  {
    if e.id in c.memory {
      var (s, _, _) := C.Promote(env.secrets, c.memory[e.id].source, c.secrets.value, e.secretCalls);
      var r := c.memory[e.id].(source := s);
      SourcesUpdate(c.memory, e.id, r);
      SourcesUpdate(c.disk, e.id, r);
    }
  }

  /**
    A sequence of migration turns of the catalog is a pass of `CredentialMigration` over its records
    and secrets, and it leaves every status, test result and capability in memory as it was.
  */
  lemma {:induction false} MigrationIsPass(env: Env, c: Catalog, es: seq<Event>)
    requires c.secrets.Some? && AreTurns(es)
    ensures var c' := Run(env, c, es);
            && c'.secrets.Some?
            && VaultOf(c') == M.Run(env.secrets, VaultOf(c), Turns(es))
            && OnlySourcesDiffer(c.memory, c'.memory)
    ensures M.Pass(Turns(es)) && M.Visited(Turns(es)) == TurnIds(es)
  {
    if es != [] {
      var before, e := es[..|es| - 1], es[|es| - 1];
      MigrationIsPass(env, c, before);
      TurnIsStep(env, Run(env, c, before), e);
      M.AppendTurn(env.secrets, VaultOf(c), Turns(before), M.PromoteRecord(e.id, e.secretCalls, e.saved));
      OnlySourcesDifferTransitive(c.memory, Run(env, c, before).memory, Run(env, c, es).memory);
    }
  }

  /** A restart and the same secret store again: the records in memory are those on disk. */
  lemma RestartIsStep(env: Env, c: Catalog)
    requires c.secrets.Some?
    ensures var c' := Apply(env, Apply(env, c, Reload), AttachSecrets(c.secrets.value));
            VaultOf(c') == M.Step(env.secrets, VaultOf(c), M.Restart) && VaultOf(c').memory == VaultOf(c).disk
  {
  }

  class DataSourceCatalog {
    const env: Env
    var sources: Responses
    var db: Responses
    var secrets: Option<C.SecretStore>

    function State(): Catalog
      reads this
    {
      Catalog(sources, db, secrets)
    }

    /** Opens the catalog on an existing database, entry by entry. */
    constructor (env: Env, db: Responses)
      ensures this.env == env
      ensures State() == Catalog(db, db, None)
    {
      this.env, this.db, secrets := env, db, None;
      var loaded: Responses := map[];
      var rest := db.Keys;
      while rest != {}
        invariant rest <= db.Keys && loaded == map id | id in db.Keys - rest :: db[id]
      {
        var id :| id in rest;
        loaded := loaded[id := db[id]];
        rest := rest - {id};
      }
      assert loaded == db;
      sources := loaded;
    }

    method PromoteInlineCredentials(source: DataSource, store: C.SecretStore, calls: C.StoreOutcome)
      returns (promoted: bool, source': DataSource)
      requires secrets == Some(store)
      modifies this`secrets
      ensures var (s, store', p) := C.Promote(env.secrets, source, store, calls);
              promoted == p && source' == s && secrets == Some(store')
    {
      promoted, source' := false, source;
      var inline := C.Inline(env.secrets, source);
      if inline.None? {
        return;
      }
      var ref := C.EffectiveRef(env.secrets, source);
      var ready := !calls.checkFails && C.ExistsByRef(store, ref);
      if !ready {
        if calls.putFails {
          return;
        }
        secrets := Some(store[C.StorePath(ref) := C.KeyValue(inline.value)]);
      }
      source' := source'.(connection := source'.connection.(secretRef := ref));
      if source'.connection.credentials != map[] {
        source' := source'.(connection := source'.connection.(credentials := map[]));
      }
      source' := source'.(metadata := C.StripKeys(env.secrets, source'.metadata));
      promoted := true;
    }

    method RegisterSource(source: DataSource, calls: C.StoreOutcome, saved: bool) returns (r: Result<Response>)
      modifies this
      ensures State() == Apply(env, old(State()), Register(source, calls, saved))
      ensures r.Ok? <==> saved
      ensures r.Ok? ==> Some(r.value) == GetSource(env, State(), source.id) && r.value.status == Unverified
    {
      var s := source.(sourceType := source.connection.config.kind);
      s := s.(connection := s.connection.(config := env.normalizeConfig(s.connection.config)));
      if secrets.Some? {
        var _, promoted := PromoteInlineCredentials(s, secrets.value, calls);
        s := promoted;
      }
      var response := Enrich(env, Response(s, Unverified, None, None));
      if !saved {
        return Err("Failed to persist datasource");
      }
      db := db[source.id := response];
      sources := sources[source.id := response];
      return Ok(response);
    }

    method UpdateSource(id: string, patch: Patch, saved: bool) returns (r: Result<Response>)
      modifies this`sources, this`db
      ensures State() == Apply(env, old(State()), Update(id, patch, saved))
      ensures r.Ok? ==> Some(r.value) == GetSource(env, State(), id)
      ensures r.Ok? <==> id in old(sources) && (EmptyPatch(patch) || (saved && !Rejects(env, old(sources)[id], patch)))
    {
      if id !in sources {
        return Err("Data source not found");
      }
      if EmptyPatch(patch) {
        return Ok(Enrich(env, sources[id]));
      }
      var accepted := EditAndCheck(id, patch);
      if !accepted {
        return Err("Invalid data source");
      }
      if !saved {
        return Err("Failed to persist update");
      }
      db := db[id := sources[id]];
      return Ok(Enrich(env, sources[id]));
    }

    /** The part of an update that works in memory: the edits, and the checks that come after them. */
    method EditAndCheck(id: string, patch: Patch) returns (accepted: bool)
      requires id in sources
      modifies this`sources
      ensures accepted == !Rejects(env, old(sources)[id], patch)
      ensures sources == old(sources)[id := Updated(env, old(sources)[id], patch)]
    {
      var source := EditSource(sources[id].source, patch);
      sources := sources[id := sources[id].(source := source)];
      if patch.sourceType.Some? && env.typeByName(patch.sourceType.value) != Some(source.connection.config.kind) {
        return false;
      }
      accepted := FinishUpdate(id, patch);
    }

    /** Applies the fields a patch sets, one by one. */
    method EditSource(source: DataSource, patch: Patch) returns (s: DataSource)
      ensures s == EditedSource(env, source, patch)
    {
      s := source;
      if patch.title.Some? {
        s := s.(title := patch.title.value);
      }
      if patch.description.Some? {
        s := s.(description := patch.description);
      }
      if patch.connection.Some? {
        var connection := patch.connection.value;
        s := s.(connection := connection.(config := env.normalizeConfig(connection.config)));
      }
      if patch.schemaRef.Some? {
        s := s.(schemaRef := patch.schemaRef);
      }
      if patch.tags.Some? {
        s := s.(tags := patch.tags.value);
      }
      if patch.metadata.Some? {
        s := s.(metadata := patch.metadata.value);
      }
    }

    /** The part of an update after the type check: validation, status reset, capabilities. */
    method FinishUpdate(id: string, patch: Patch) returns (accepted: bool)
      requires id in sources
      modifies this`sources
      ensures accepted == Valid(env, old(sources)[id].source)
      ensures sources == old(sources)[id := Checked(env, old(sources)[id], patch)]
    {
      var response := sources[id];
      response := response.(source := response.source.(sourceType := response.source.connection.config.kind));
      sources := sources[id := response];
      if !Valid(env, response.source) {
        return false;
      }
      if ConnectionImpacted(patch) {
        response := response.(status := Unverified, lastTest := None);
      }
      response := response.(capabilities := Some(CapabilitiesOf(env, response)));
      sources := sources[id := response];
      return true;
    }

    method DeleteSource(id: string, saved: bool) returns (r: Result<()>)
      modifies this`sources, this`db
      ensures State() == Apply(env, old(State()), Delete(id, saved))
      ensures r.Ok? <==> saved && id in old(sources)
      ensures if saved then sources == old(sources) - {id} && db == old(db) - {id}
              else sources == old(sources) && db == old(db)
    {
      if !saved {
        return Err("Failed to delete datasource");
      }
      db := db - {id};
      if id !in sources {
        assert sources - {id} == sources;
        return Err("Data source not found");
      }
      sources := sources - {id};
      return Ok(());
    }

    method TestConnection(id: string, result: Option<TestResult>, saved: bool) returns (r: Result<TestResult>)
      modifies this`sources, this`db
      ensures State() == Apply(env, old(State()), Test(id, result, saved))
      ensures r.Ok? <==> TestRuns(env, old(State()), id) && result.Some?
      ensures r.Ok? ==> Some(r.value) == result
    {
      if id !in sources {
        return Err("Data source not found");
      }
      var source := Enrich(env, sources[id]).source;
      if env.connector(source.connection.config).None? {
        return Err("No connector found");
      }
      if C.Resolve(env.secrets, source, secrets).None? {
        return Err("Missing credentials");
      }
      if result.None? {
        return Err("Connection test could not be carried out");
      }
      var response := sources[id].(lastTest := result);
      response := response.(status := if result.value.success then Active else Error);
      sources := sources[id := response];
      if saved {
        db := db[id := Enrich(env, response)];
      }
      return Ok(result.value);
    }

    method MarkSyncedAt(id: string, now: int, saved: bool)
      modifies this`sources, this`db
      ensures State() == Apply(env, old(State()), MarkSynced(id, now, saved))
    {
      if id in sources {
        var response := sources[id].(source := sources[id].source.(lastSyncedAt := Some(now)));
        sources := sources[id := response];
        if saved {
          db := db[id := response];
        }
      }
    }

    method UpdateStatus(id: string, status: Status, error: Option<string>, saved: bool) returns (r: Result<()>)
      modifies this`sources, this`db
      ensures State() == Apply(env, old(State()), SetStatus(id, status, error, saved))
      ensures r.Ok? <==> id in old(sources) && saved
    {
      if id !in sources {
        return Err("Data source not found");
      }
      var response := sources[id].(status := status);
      if error.Some? {
        response := response.(source := response.source.(metadata := response.source.metadata["last_error" := error.value]));
      }
      sources := sources[id := response];
      if !saved {
        return Err("Failed to persist status update");
      }
      db := db[id := Enrich(env, response)];
      return Ok(());
    }

    /**
      Configures the secret store and promotes every record with inline credentials.  This is one
      `MigrateRecord` event per record, so by `MigrationIsPass` a pass of `CredentialMigration`.
    */
    method SetSecretStoreRegistry(store: C.SecretStore, calls: string -> C.StoreOutcome, saves: string -> bool)
      returns (ghost turns: seq<Event>)
      modifies this
      ensures AreTurns(turns) && TurnIds(turns) == old(sources).Keys && Outcomes(turns, calls, saves)
      ensures State() == Run(env, Apply(env, old(State()), AttachSecrets(store)), turns)
    {
      secrets := Some(store);
      turns := MigrateInlineCredentials(calls, saves);
    }

    /** The loop over the records. */
    method MigrateInlineCredentials(calls: string -> C.StoreOutcome, saves: string -> bool)
      returns (ghost turns: seq<Event>)
      requires secrets.Some?
      modifies this
      ensures AreTurns(turns) && TurnIds(turns) == old(sources).Keys && Outcomes(turns, calls, saves)
      ensures State() == Run(env, old(State()), turns)
    {
      turns := [];
      var rest := sources.Keys;
      while rest != {}
        invariant secrets.Some? && sources.Keys == old(sources).Keys
        invariant AreTurns(turns) && TurnIds(turns) + rest == old(sources).Keys && Outcomes(turns, calls, saves)
        invariant State() == Run(env, old(State()), turns)
      {
        var id :| id in rest;
        AppendTurn(env, old(State()), turns, MigrateRecord(id, calls(id), saves(id)));
        MigrateOne(id, calls(id), saves(id));
        turns := turns + [MigrateRecord(id, calls(id), saves(id))];
        rest := rest - {id};
      }
    }

    /** One turn of the migration loop. */
    method MigrateOne(id: string, calls: C.StoreOutcome, saved: bool)
      requires secrets.Some? && id in sources
      modifies this
      ensures secrets.Some? && sources.Keys == old(sources).Keys
      ensures State() == Apply(env, old(State()), MigrateRecord(id, calls, saved))
    {
      var source := sources[id].source;
      if C.Inline(env.secrets, source).None? {
        return;
      }
      var promoted, source' := PromoteInlineCredentials(source, secrets.value, calls);
      if promoted {
        var response := sources[id].(source := source');
        sources := sources[id := response];
        if saved {
          db := db[id := response];
        }
      }
    }
  }
}
