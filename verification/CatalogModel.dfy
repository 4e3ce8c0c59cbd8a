/**
  The data source catalog on values: a memory map written through to disk, the verification
  status of each source, and the capabilities derived from both.
*/
module CatalogModel {
  import opened Common
  import opened SourceTypes
  import Credentials

  datatype Status = Unverified | Active | Testing | Error | Disabled

  datatype TestResult = TestResult(success: bool, detail: string)

  datatype Capabilities = Capabilities(
    canTest: bool, canInferSchema: bool, canQuery: bool, canReadWorkflow: bool, canWriteWorkflow: bool,
    supportsParameters: bool, supportsTls: bool, supportsIncremental: bool, supportsCancellation: bool)

  datatype Response = Response(
    source: DataSource, status: Status, lastTest: Option<TestResult>, capabilities: Option<Capabilities>)

  datatype ConnectorFeatures = ConnectorFeatures(parameterizedQueries: bool, schemaInference: bool, queryTimeout: bool)

  /** The connectors, the discovery service, the driver lookups and the configuration checks. */
  datatype Env = Env(
    secrets: Credentials.Env,
    connector: SourceConfig -> Option<ConnectorFeatures>,
    discovers: SourceKind -> bool,
    odbcEnabled: bool,
    oracleReady: (SourceConfig, map<string, string>) -> bool,
    normalizeConfig: SourceConfig -> SourceConfig,
    configValid: SourceConfig -> bool,
    typeByName: string -> Option<SourceKind>)

  // ----- derived capabilities -----

  predicate UsesOdbc(env: Env, kind: SourceKind) {
    env.odbcEnabled && kind in {DB2, Oracle, SAPHANA}
  }

  predicate OperationalReady(env: Env, r: Response) {
    var c := r.source.connection.config;
    r.status == Active && (c.kind == Oracle ==> env.oracleReady(c, r.source.metadata))
  }

  function CapabilitiesOf(env: Env, r: Response): Capabilities {
    var config := r.source.connection.config;
    var kind := config.kind;
    var available := env.connector(config).Some?;
    var features := if available then env.connector(config).value else ConnectorFeatures(false, false, false);
    var odbc := UsesOdbc(env, kind);
    var (query, infer, readWorkflow, writeWorkflow) :=
      match kind
      case PostgreSQL => (true, true, true, true)
      case Oracle => (odbc, true, odbc, odbc)
      case DB2 => (odbc, true, odbc, true)
      case SAPHANA => (odbc, odbc && env.discovers(SAPHANA), odbc, false)
      case Snowflake => (true, true, true, false)
      case Databricks => (true, true, true, true)
      case CsvFile => (true, true, true, false)
      case _ => (false, false, false, false);
    var ready := OperationalReady(env, r);
    Capabilities(
      available,
      (if kind == SAPHANA then infer else infer && features.schemaInference) && ready,
      query && ready,
      readWorkflow && ready,
      writeWorkflow && ready,
      if kind == Oracle || kind == SAPHANA then odbc else features.parameterizedQueries,
      kind in {PostgreSQL, MySQL, Snowflake, Databricks},
      kind in {Oracle, PostgreSQL, DB2, SAPHANA, Snowflake, Databricks},
      !odbc && features.queryTimeout)
  }

  function Enrich(env: Env, r: Response): Response {
    var typed := r.(source := r.source.(sourceType := r.source.connection.config.kind));
    typed.(capabilities := Some(CapabilitiesOf(env, typed)))
  }

  /** The source claims to be usable for queries, schema inference or workflows. */
  predicate ReportsOperational(r: Response) {
    r.capabilities.Some? &&
    var c := r.capabilities.value;
    c.canQuery || c.canInferSchema || c.canReadWorkflow || c.canWriteWorkflow
  }

  // ----- the catalog and its operations -----

  type Responses = map<string, Response>

  datatype Catalog = Catalog(memory: Responses, disk: Responses, secrets: Option<Credentials.SecretStore>)

  datatype Patch = Patch(
    title: Option<string>, description: Option<string>, sourceType: Option<string>,
    connection: Option<Connection>, schemaRef: Option<string>, tags: Option<seq<string>>,
    metadata: Option<map<string, string>>)

  /**
    One request with the outcomes of the foreign calls it makes; `saved` is the disk write.  Setting
    the secret-store registry is `AttachSecrets` followed by one `MigrateRecord` per source.
  */
  datatype Event =
    | Register(source: DataSource, secretCalls: Credentials.StoreOutcome, saved: bool)
    | Update(id: string, patch: Patch, saved: bool)
    | Delete(id: string, saved: bool)
    | Test(id: string, result: Option<TestResult>, saved: bool)
    | MarkSynced(id: string, now: int, saved: bool)
    | SetStatus(id: string, status: Status, error: Option<string>, saved: bool)
    | AttachSecrets(store: Credentials.SecretStore)
    | MigrateRecord(id: string, secretCalls: Credentials.StoreOutcome, saved: bool)
    | Reload

  function GetSource(env: Env, c: Catalog, id: string): Option<Response> {
    if id in c.memory then Some(Enrich(env, c.memory[id])) else None
  }

  function Write(c: Catalog, id: string, inMemory: Response, onDisk: Response, saved: bool): Catalog {
    c.(memory := c.memory[id := inMemory], disk := if saved then c.disk[id := onDisk] else c.disk)
  }

  /** The source as it is registered, and the secrets after its promotion. */
  function Admitted(env: Env, c: Catalog, s: DataSource, o: Credentials.StoreOutcome)
    : (DataSource, Option<Credentials.SecretStore>)
  {
    var typed := s.(sourceType := s.connection.config.kind,
                    connection := s.connection.(config := env.normalizeConfig(s.connection.config)));
    match c.secrets
    case None => (typed, None)
    case Some(store) =>
      var (promoted, store', _) := Credentials.Promote(env.secrets, typed, store, o);
      (promoted, Some(store'))
  }

  predicate EmptyPatch(p: Patch) {
    p == Patch(None, None, None, None, None, None, None)
  }

  predicate ConnectionImpacted(p: Patch) {
    p.connection.Some? || p.metadata.Some? || p.sourceType.Some?
  }

  /** The edits an update makes in memory before it checks anything. */
  function Edited(env: Env, r: Response, p: Patch): Response {
    r.(source := EditedSource(env, r.source, p))
  }

  function EditedSource(env: Env, s: DataSource, p: Patch): DataSource {
    s.(
      title := if p.title.Some? then p.title.value else s.title,
      description := if p.description.Some? then p.description else s.description,
      connection := if p.connection.Some?
                    then p.connection.value.(config := env.normalizeConfig(p.connection.value.config))
                    else s.connection,
      schemaRef := if p.schemaRef.Some? then p.schemaRef else s.schemaRef,
      tags := if p.tags.Some? then p.tags.value else s.tags,
      metadata := if p.metadata.Some? then p.metadata.value else s.metadata)
  }

  predicate TypeAccepted(env: Env, edited: Response, p: Patch) {
    p.sourceType.None? || env.typeByName(p.sourceType.value) == Some(edited.source.connection.config.kind)
  }

  predicate Valid(env: Env, s: DataSource) {
    s.title != "" && !(s.connection.secretRef == "" && s.connection.credentials == map[]) &&
    env.configValid(s.connection.config)
  }

  predicate Rejects(env: Env, r: Response, p: Patch) {
    var e := Edited(env, r, p);
    !TypeAccepted(env, e, p) || !Valid(env, e.source)
  }

  /** The record in memory after an update, accepted or not. */
  function Updated(env: Env, r: Response, p: Patch): Response {
    var e := Edited(env, r, p);
    if TypeAccepted(env, e, p) then Checked(env, e, p) else e
  }

  /** What an update does to the edited record once the type is accepted. */
  function Checked(env: Env, e: Response, p: Patch): Response {
    var typed := e.(source := e.source.(sourceType := e.source.connection.config.kind));
    if !Valid(env, typed.source) then typed
    else
      var reset := if ConnectionImpacted(p) then typed.(status := Unverified, lastTest := None) else typed;
      reset.(capabilities := Some(CapabilitiesOf(env, reset)))
  }

  /** A connection test reaches the connector. */
  predicate TestRuns(env: Env, c: Catalog, id: string) {
    && id in c.memory
    && var s := Enrich(env, c.memory[id]).source;
       env.connector(s.connection.config).Some? && Credentials.Resolve(env.secrets, s, c.secrets).Some?
  }

  function Apply(env: Env, c: Catalog, e: Event): Catalog {
    match e
    case Register(source, o, saved) =>
      var (s, secrets) := Admitted(env, c, source, o);
      var r := Enrich(env, Response(s, Unverified, None, None));
      var stored := c.(secrets := secrets);
      if saved then Write(stored, source.id, r, r, true) else stored
    case Update(id, p, saved) =>
      if EmptyPatch(p) || id !in c.memory then c
      else
        var r := Updated(env, c.memory[id], p);
        if Rejects(env, c.memory[id], p) then Write(c, id, r, r, false) else Write(c, id, r, r, saved)
    case Delete(id, saved) =>
      if saved then c.(memory := c.memory - {id}, disk := c.disk - {id}) else c
    case Test(id, result, saved) =>
      if !TestRuns(env, c, id) || result.None? then c
      else
        var r := c.memory[id].(lastTest := result, status := if result.value.success then Active else Error);
        Write(c, id, r, Enrich(env, r), saved)
    case MarkSynced(id, now, saved) =>
      if id !in c.memory then c
      else
        var r := c.memory[id].(source := c.memory[id].source.(lastSyncedAt := Some(now)));
        Write(c, id, r, r, saved)
    case SetStatus(id, status, error, saved) =>
      if id !in c.memory then c
      else
        var r := WithStatus(c.memory[id], status, error);
        Write(c, id, r, Enrich(env, r), saved)
    case AttachSecrets(store) => c.(secrets := Some(store))
    case MigrateRecord(id, o, saved) =>
      if c.secrets.None? || id !in c.memory then c
      else
        var (s, store, promoted) := Credentials.Promote(env.secrets, c.memory[id].source, c.secrets.value, o);
        if !promoted then c
        else
          var r := c.memory[id].(source := s);
          Write(c.(secrets := Some(store)), id, r, r, saved)
    case Reload => c.(memory := c.disk, secrets := None)
  }

  function WithStatus(r: Response, status: Status, error: Option<string>): Response {
    var s := r.source;
    Response(if error.Some? then s.(metadata := s.metadata["last_error" := error.value]) else s,
             status, r.lastTest, r.capabilities)
  }

  function Run(env: Env, c: Catalog, es: seq<Event>): Catalog {
    if es == [] then c else Apply(env, Run(env, c, es[..|es| - 1]), es[|es| - 1])
  }
}
