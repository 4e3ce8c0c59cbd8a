/**
  What the catalog lists and what is read from it, stated from the requests: which ids are there
  after any run, what each request leaves to be read, and what it leaves alone.
*/
module CatalogReading {
  import opened Common
  import opened SourceTypes
  import Credentials
  import opened CatalogModel

  // ----- which sources are listed -----

  predicate Registers(e: Event, id: string) {
    e.Register? && e.source.id == id && e.saved
  }

  predicate Deletes(e: Event, id: string) {
    e.Delete? && e.id == id && e.saved
  }

  /** Some saved registration of `id` has no later saved deletion. */
  ghost predicate Registered(es: seq<Event>, id: string) {
    exists i :: 0 <= i < |es| && RegisteredAt(es, id, i)
  }

  ghost predicate RegisteredAt(es: seq<Event>, id: string, i: nat)
    requires i < |es|
  {
    Registers(es[i], id) && forall j :: i < j < |es| ==> !Deletes(es[j], id)
  }

  lemma RegisteredStep(es: seq<Event>, e: Event, id: string)
    ensures Registered(es + [e], id) <==> Registers(e, id) || (Registered(es, id) && !Deletes(e, id))
  {
    var all := es + [e];
    assert all[|es|] == e;
    if Registers(e, id) {
      assert RegisteredAt(all, id, |es|);
    } else if Registered(es, id) && !Deletes(e, id) {
      var i :| 0 <= i < |es| && RegisteredAt(es, id, i);
      assert RegisteredAt(all, id, i);
    }
    if Registered(all, id) && !Registers(e, id) {
      var i :| 0 <= i < |all| && RegisteredAt(all, id, i);
      assert i < |es| && all[i] == es[i];
      forall j | i < j < |es| ensures !Deletes(es[j], id) {
        assert all[j] == es[j];
      }
      assert RegisteredAt(es, id, i);
    }
  }

  lemma ListedStep(env: Env, c: Catalog, e: Event, id: string)
    requires c.memory.Keys == c.disk.Keys
    ensures id in Apply(env, c, e).memory <==> Registers(e, id) || (id in c.memory && !Deletes(e, id))
    ensures id in Apply(env, c, e).disk <==> Registers(e, id) || (id in c.disk && !Deletes(e, id))
  {
  }

  /**
    After every run from an empty catalog, with rejected updates, failed writes and restarts, a source
    is listed, in memory and on disk, exactly when some saved registration of it has no later saved
    deletion.
  */
  lemma {:induction false} ListedIff(env: Env, c: Catalog, es: seq<Event>, id: string)
    requires c.memory == map[] && c.disk == map[]
    ensures id in Run(env, c, es).memory <==> Registered(es, id)
    ensures id in Run(env, c, es).disk <==> Registered(es, id)
  {
    if es != [] {
      var before, e := es[..|es| - 1], es[|es| - 1];
      assert es == before + [e];
      forall other
        ensures other in Run(env, c, before).memory <==> Registered(before, other)
        ensures other in Run(env, c, before).disk <==> Registered(before, other)
      {
        ListedIff(env, c, before, other);
      }
      assert Run(env, c, before).memory.Keys == Run(env, c, before).disk.Keys;
      ListedStep(env, Run(env, c, before), e, id);
      RegisteredStep(before, e, id);
    }
  }

  // ----- what a request leaves alone -----

  /** The request is about the source `id`. */
  predicate Concerns(e: Event, id: string) {
    match e
    case Register(s, _, _) => s.id == id
    case Update(i, _, _) => i == id
    case Delete(i, _) => i == id
    case Test(i, _, _) => i == id
    case MarkSynced(i, _, _) => i == id
    case SetStatus(i, _, _, _) => i == id
    case MigrateRecord(i, _, _) => i == id
    case AttachSecrets(_) => false
    case Reload => false
  }

  predicate SameAt(a: Responses, b: Responses, id: string) {
    (id in a <==> id in b) && (id in a && id in b ==> a[id] == b[id])
  }

  /** The write of the request to disk fails. */
  predicate Unsaved(e: Event) {
    !e.AttachSecrets? && !e.Reload? && !e.saved
  }

  /**
    A request leaves the records of all other sources as they are.  Memory changes for a source the
    request is not about only by a restart, which shows the records on disk.
  */
  lemma OtherSourcesStay(env: Env, c: Catalog, e: Event, id: string)
    requires !Concerns(e, id)
    ensures SameAt(c.disk, Apply(env, c, e).disk, id)
    ensures SameAt(if e.Reload? then c.disk else c.memory, Apply(env, c, e).memory, id)
  {
  }

  /** A request whose write fails leaves the disk alone; a restart shows the disk and forgets the secret store. */
  lemma DiskAndSecretsStay(env: Env, c: Catalog, e: Event)
    ensures Unsaved(e) ==> Apply(env, c, e).disk == c.disk
    ensures e.Reload? ==> Apply(env, c, e) == Catalog(c.disk, c.disk, None)
    ensures e.AttachSecrets? ==> Apply(env, c, e) == Catalog(c.memory, c.disk, Some(e.store))
    ensures !e.Register? && !e.MigrateRecord? && !e.AttachSecrets? && !e.Reload? ==> Apply(env, c, e).secrets == c.secrets
  {
  }

  /** Over a whole run without a restart: a source no request is about reads as it did. */
  lemma {:induction false} UnconcernedReadsSame(env: Env, c: Catalog, es: seq<Event>, id: string)
    requires forall i :: 0 <= i < |es| ==> !Concerns(es[i], id) && !es[i].Reload?
    ensures GetSource(env, Run(env, c, es), id) == GetSource(env, c, id)
  {
    if es != [] {
      var before, e := es[..|es| - 1], es[|es| - 1];
      UnconcernedReadsSame(env, c, before, id);
      OtherSourcesStay(env, Run(env, c, before), e, id);
    }
  }

  // ----- what a request leaves to be read -----

  /** Reading shows the record with the type of its configuration and its capabilities, and all else as it is. */
  lemma EnrichMeaning(env: Env, r: Response)
    ensures var e := Enrich(env, r);
            && e.source.sourceType == r.source.connection.config.kind
            && e.capabilities == Some(CapabilitiesOf(env, r))
            && e.(source := e.source.(sourceType := r.source.sourceType), capabilities := r.capabilities) == r
  {
  }

  predicate SameDescription(a: DataSource, b: DataSource) {
    a.id == b.id && a.title == b.title && a.description == b.description && a.schemaRef == b.schemaRef &&
    a.tags == b.tags && a.lastSyncedAt == b.lastSyncedAt
  }

  /**
    A saved registration is read back as it was given, unverified, untested and with a normalized
    configuration; its credentials are where they were given unless a secret store is configured, in
    which case the record and the secrets are those of the promotion.
  */
  lemma RegisteredReads(env: Env, c: Catalog, s: DataSource, o: Credentials.StoreOutcome)
    ensures var c' := Apply(env, c, Register(s, o, true));
            var config := env.normalizeConfig(s.connection.config);
            var r := GetSource(env, c', s.id);
            && r.Some? && s.id in c'.disk && Enrich(env, c'.disk[s.id]) == r.value
            && r.value.status == Unverified && r.value.lastTest == None
            && SameDescription(r.value.source, s)
            && r.value.source.sourceType == config.kind
            && r.value.source.connection.config == config
            && r.value.source.connection.encryptionEnabled == s.connection.encryptionEnabled
            && (c.secrets.None? ==>
                  && c'.secrets == None
                  && r.value.source.connection == s.connection.(config := config)
                  && r.value.source.metadata == s.metadata)
            && (c.secrets.Some? ==>
                  var given := s.(sourceType := s.connection.config.kind, connection := s.connection.(config := config));
                  var (kept, store, _) := Credentials.Promote(env.secrets, given, c.secrets.value, o);
                  && c'.secrets == Some(store)
                  && r.value.source.connection == kept.connection && r.value.source.metadata == kept.metadata)
  {
  }

  /**
    A registration whose record cannot be saved changes no record, yet the secret it wrote before that
    stays in the store.
  */
  lemma FailedRegistrationKeepsSecret(env: Env, c: Catalog, s: DataSource, o: Credentials.StoreOutcome)
    requires c.secrets.Some? && !o.putFails && s.connection.credentials != map[]
    requires !Credentials.ExistsByRef(c.secrets.value, Credentials.EffectiveRef(env.secrets, s))
    ensures var c' := Apply(env, c, Register(s, o, false));
            var path := Credentials.StorePath(Credentials.EffectiveRef(env.secrets, s));
            && c'.memory == c.memory && c'.disk == c.disk
            && c'.secrets == Some(c.secrets.value[path := Credentials.KeyValue(s.connection.credentials)])
  {
    var given := s.(sourceType := s.connection.config.kind,
                    connection := s.connection.(config := env.normalizeConfig(s.connection.config)));
    assert Credentials.EffectiveRef(env.secrets, given) == Credentials.EffectiveRef(env.secrets, s);
  }

  /** What a patched field is to become. */
  function Patched<T>(given: Option<T>, present: T): T {
    match given
    case Some(v) => v
    case None => present
  }

  /**
    An update is rejected exactly when the type it names is not that of the connection, or the title
    would be empty, or there would be neither a reference nor credentials, or the configuration is
    invalid, where a field the patch does not set counts as it is.
  */
  lemma RejectsIff(env: Env, r: Response, p: Patch)
    ensures var connection := if p.connection.Some?
                              then p.connection.value.(config := env.normalizeConfig(p.connection.value.config))
                              else r.source.connection;
            Rejects(env, r, p) <==>
              || (p.sourceType.Some? && env.typeByName(p.sourceType.value) != Some(connection.config.kind))
              || Patched(p.title, r.source.title) == ""
              || (connection.secretRef == "" && connection.credentials == map[])
              || !env.configValid(connection.config)
  {
  }

  /** Every field the patch sets is as given, every other as before, and the type is that of the connection. */
  predicate IsPatched(env: Env, b: DataSource, p: Patch, s: DataSource) {
    && s.id == b.id && s.lastSyncedAt == b.lastSyncedAt
    && s.title == Patched(p.title, b.title)
    && s.description == (if p.description.Some? then p.description else b.description)
    && s.schemaRef == (if p.schemaRef.Some? then p.schemaRef else b.schemaRef)
    && s.tags == Patched(p.tags, b.tags)
    && s.metadata == Patched(p.metadata, b.metadata)
    && s.connection == (if p.connection.Some?
                        then p.connection.value.(config := env.normalizeConfig(p.connection.value.config))
                        else b.connection)
    && s.sourceType == s.connection.config.kind
  }

  lemma EditedIsPatched(env: Env, b: DataSource, p: Patch)
    ensures var s := EditedSource(env, b, p); IsPatched(env, b, p, s.(sourceType := s.connection.config.kind))
  {
  }

  lemma CheckedRecord(env: Env, e: Response, p: Patch)
    ensures var u, impacted := Checked(env, e, p), p.connection.Some? || p.metadata.Some? || p.sourceType.Some?;
            var valid := Valid(env, e.source);
            && u.source == e.source.(sourceType := e.source.connection.config.kind)
            && u.status == (if valid && impacted then Unverified else e.status)
            && u.lastTest == (if valid && impacted then None else e.lastTest)
  {
  }

  lemma UpdatedRecord(env: Env, b: Response, p: Patch)
    ensures var rejected, impacted := Rejects(env, b, p), p.connection.Some? || p.metadata.Some? || p.sourceType.Some?;
            var u := Updated(env, b, p);
            && IsPatched(env, b.source, p, u.source.(sourceType := u.source.connection.config.kind))
            && u.status == (if !rejected && impacted then Unverified else b.status)
            && u.lastTest == (if !rejected && impacted then None else b.lastTest)
  {
    EditedIsPatched(env, b.source, p);
    CheckedRecord(env, Edited(env, b, p), p);
  }

  /**
    After an update, rejected or not, every field the patch sets reads as given and every other as
    before.  Only an accepted one that sets connection, metadata or type makes the source unverified,
    and only an accepted one is written to disk.
  */
  lemma UpdatedReads(env: Env, c: Catalog, id: string, p: Patch, saved: bool)
    requires id in c.memory && !EmptyPatch(p)
    ensures var c', b := Apply(env, c, Update(id, p, saved)), c.memory[id];
            var rejected, impacted := Rejects(env, b, p), p.connection.Some? || p.metadata.Some? || p.sourceType.Some?;
            && GetSource(env, c', id).Some?
            && var r := GetSource(env, c', id).value;
               && IsPatched(env, b.source, p, r.source)
               && r.status == (if !rejected && impacted then Unverified else b.status)
               && r.lastTest == (if !rejected && impacted then None else b.lastTest)
               && (if rejected || !saved then c'.disk == c.disk
                   else id in c'.disk && Enrich(env, c'.disk[id]) == r)
  {
    UpdatedRecord(env, c.memory[id], p);
    var c', u := Apply(env, c, Update(id, p, saved)), Updated(env, c.memory[id], p);
    assert c'.memory[id] == u;
    EnrichMeaning(env, u);
  }

  /** Capabilities depend on the configuration, the status and the metadata only. */
  lemma CapabilitiesSame(env: Env, a: Response, b: Response)
    requires a.source.connection.config == b.source.connection.config
    requires a.status == b.status && a.source.metadata == b.source.metadata
    ensures CapabilitiesOf(env, a) == CapabilitiesOf(env, b)
  {
  }

  /** A synchronization mark changes the synchronization time and nothing else. */
  lemma SyncedReads(env: Env, c: Catalog, id: string, now: int, saved: bool)
    requires id in c.memory
    ensures var b, r := GetSource(env, c, id).value, GetSource(env, Apply(env, c, MarkSynced(id, now, saved)), id);
            && r.Some? && r.value.source.lastSyncedAt == Some(now)
            && r.value.(source := r.value.source.(lastSyncedAt := b.source.lastSyncedAt)) == b
  {
    var b, m := c.memory[id], Apply(env, c, MarkSynced(id, now, saved)).memory[id];
    assert m == b.(source := b.source.(lastSyncedAt := Some(now)));
    CapabilitiesSame(env, b, m);
    EnrichMeaning(env, b);
    EnrichMeaning(env, m);
  }

  /** A status change sets the status, and the error message under `last_error` if there is one. */
  lemma StatusReads(env: Env, c: Catalog, id: string, status: Status, error: Option<string>, saved: bool)
    requires id in c.memory
    ensures var b, r := c.memory[id], GetSource(env, Apply(env, c, SetStatus(id, status, error, saved)), id);
            && r.Some? && r.value.status == status && r.value.lastTest == b.lastTest
            && (error.Some? ==> r.value.source.metadata == b.source.metadata["last_error" := error.value])
            && (error.None? ==> r.value.source.metadata == b.source.metadata)
            && SameDescription(r.value.source, b.source) && r.value.source.connection == b.source.connection
  {
  }

  /**
    A test that is carried out shows its result and the status it gives; without a connector, without
    a login or without a result nothing changes.
  */
  lemma TestedReads(env: Env, c: Catalog, id: string, result: Option<TestResult>, saved: bool)
    requires id in c.memory
    ensures var c', b := Apply(env, c, Test(id, result, saved)), c.memory[id];
            var config, r := b.source.connection.config, GetSource(env, c', id);
            var login := Credentials.Resolve(env.secrets, b.source.(sourceType := config.kind), c.secrets);
            && r.Some?
            && (if env.connector(config).Some? && login.Some? && result.Some? then
                  && r.value.lastTest == result
                  && r.value.status == (if result.value.success then Active else Error)
                  && r.value.source == b.source.(sourceType := config.kind)
                else c' == c)
  {
  }

  /** A turn of the credential migration leaves the promoted record, and the rest of the response as it was. */
  lemma MigratedReads(env: Env, c: Catalog, id: string, o: Credentials.StoreOutcome, saved: bool)
    requires id in c.memory && c.secrets.Some?
    ensures var c', b := Apply(env, c, MigrateRecord(id, o, saved)), c.memory[id];
            var (s, store, promoted) := Credentials.Promote(env.secrets, b.source, c.secrets.value, o);
            && id in c'.memory && c'.memory[id] == b.(source := s) && c'.secrets == Some(store)
            && (promoted && saved ==> id in c'.disk && c'.disk[id] == c'.memory[id])
  {
  }
}
