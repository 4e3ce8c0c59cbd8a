/**
  Two properties of every run of the catalog: a restart is invisible, and a source that reports
  itself operational has been verified since its connection last changed.  Rejected updates break
  both, and the exact condition is stated for each.
*/
module CatalogProperties {
  import opened Common
  import opened SourceTypes
  import Credentials
  import opened CatalogModel

  // ----- capabilities -----

  /** Which kinds of source can do what once they are ready, with and without an ODBC driver. */
  lemma CapabilitiesMeaning(env: Env, r: Response)
    ensures var c, config := CapabilitiesOf(env, r), r.source.connection.config;
            var kind, connector := config.kind, env.connector(config);
            var ready := r.status == Active && (kind == Oracle ==> env.oracleReady(config, r.source.metadata));
            var direct := kind in {PostgreSQL, Snowflake, Databricks, CsvFile};
            var routed := kind in {DB2, Oracle, SAPHANA} && env.odbcEnabled;
            && (c.canTest <==> connector.Some?)
            && (c.canQuery <==> ready && (direct || routed))
            && (c.canReadWorkflow <==> c.canQuery)
            && (c.canWriteWorkflow <==>
                  ready && (kind in {PostgreSQL, Databricks, DB2} || (kind == Oracle && env.odbcEnabled)))
            && (c.canInferSchema <==>
                  ready && if kind == SAPHANA then env.odbcEnabled && env.discovers(SAPHANA)
                           else (direct || kind in {Oracle, DB2}) && connector.Some? && connector.value.schemaInference)
            && (c.supportsParameters <==>
                  if kind in {Oracle, SAPHANA} then env.odbcEnabled
                  else connector.Some? && connector.value.parameterizedQueries)
            && (c.supportsTls <==> kind in {PostgreSQL, MySQL, Snowflake, Databricks})
            && (c.supportsIncremental <==> kind in {Oracle, PostgreSQL, DB2, SAPHANA, Snowflake, Databricks})
            && (c.supportsCancellation <==> !routed && connector.Some? && connector.value.queryTimeout)
  {
  }

  // ----- restart -----

  /** Memory and disk hold the same sources, up to the derived fields a reader recomputes anyway. */
  ghost predicate Mirrored(env: Env, c: Catalog) {
    && c.memory.Keys == c.disk.Keys
    && forall id :: id in c.memory ==> Enrich(env, c.memory[id]) == Enrich(env, c.disk[id])
  }

  lemma EnrichIdempotent(env: Env, r: Response)
    ensures Enrich(env, Enrich(env, r)) == Enrich(env, r)
  {
  }

  lemma WriteKeepsMirrored(env: Env, c: Catalog, id: string, a: Response, b: Response)
    requires Mirrored(env, c) && Enrich(env, a) == Enrich(env, b)
    ensures Mirrored(env, Write(c, id, a, b, true))
  {
    var c' := Write(c, id, a, b, true);
    assert c'.memory.Keys == c.memory.Keys + {id} && c'.disk.Keys == c.disk.Keys + {id};
  }

  /** No disk write of the event failed and the event is no rejected update. */
  predicate Accepted(env: Env, c: Catalog, e: Event) {
    match e
    case Update(id, p, saved) => saved && (id in c.memory && !EmptyPatch(p) ==> !Rejects(env, c.memory[id], p))
    case Test(_, _, saved) => saved
    case MarkSynced(_, _, saved) => saved
    case SetStatus(_, _, _, saved) => saved
    case MigrateRecord(_, _, saved) => saved
    case _ => true
  }

  /** Every event of the run is accepted in the state it meets. */
  predicate AcceptedRun(env: Env, c: Catalog, es: seq<Event>) {
    es == [] ||
    (AcceptedRun(env, c, es[..|es| - 1]) && Accepted(env, Run(env, c, es[..|es| - 1]), es[|es| - 1]))
  }

  lemma UpdateKeepsMirrored(env: Env, c: Catalog, e: Event)
    requires Mirrored(env, c) && Accepted(env, c, e) && e.Update?
    ensures Mirrored(env, Apply(env, c, e))
  {
    if e.id in c.memory {
      var r := Updated(env, c.memory[e.id], e.patch);
      WriteKeepsMirrored(env, c, e.id, r, r);
    }
  }

  lemma StatusKeepsMirrored(env: Env, c: Catalog, e: Event)
    requires Mirrored(env, c) && Accepted(env, c, e) && (e.Test? || e.SetStatus?)
    ensures Mirrored(env, Apply(env, c, e))
  {
    if e.Test? && TestRuns(env, c, e.id) && e.result.Some? {
      var r := c.memory[e.id].(lastTest := e.result, status := if e.result.value.success then Active else Error);
      EnrichIdempotent(env, r);
      WriteKeepsMirrored(env, c, e.id, r, Enrich(env, r));
    }
    if e.SetStatus? && e.id in c.memory {
      var r := WithStatus(c.memory[e.id], e.status, e.error);
      EnrichIdempotent(env, r);
      WriteKeepsMirrored(env, c, e.id, r, Enrich(env, r));
    }
  }

  lemma ApplyKeepsMirrored(env: Env, c: Catalog, e: Event)
    requires Mirrored(env, c) && Accepted(env, c, e)
    ensures Mirrored(env, Apply(env, c, e))
  {
    match e {
      case Register(source, o, saved) =>
        var (s, secrets) := Admitted(env, c, source, o);
        var r := Enrich(env, Response(s, Unverified, None, None));
        WriteKeepsMirrored(env, c.(secrets := secrets), source.id, r, r);
      case Update(_, _, _) => UpdateKeepsMirrored(env, c, e);
      case Test(_, _, _) => StatusKeepsMirrored(env, c, e);
      case SetStatus(_, _, _, _) => StatusKeepsMirrored(env, c, e);
      case MarkSynced(id, now, _) =>
        if id in c.memory {
          var r := c.memory[id].(source := c.memory[id].source.(lastSyncedAt := Some(now)));
          WriteKeepsMirrored(env, c, id, r, r);
        }
      case MigrateRecord(id, o, _) => MigrationKeepsMirrored(env, c, e);
      case Delete(_, _) =>
      case AttachSecrets(_) =>
      case Reload =>
    }
  }

  lemma MigrationKeepsMirrored(env: Env, c: Catalog, e: Event)
    requires Mirrored(env, c) && Accepted(env, c, e) && e.MigrateRecord?
    ensures Mirrored(env, Apply(env, c, e))
  {
    if c.secrets.Some? && e.id in c.memory {
      var (s, store, _) := Credentials.Promote(env.secrets, c.memory[e.id].source, c.secrets.value, e.secretCalls);
      var r := c.memory[e.id].(source := s);
      WriteKeepsMirrored(env, c.(secrets := Some(store)), e.id, r, r);
    }
  }

  lemma {:induction false} RunKeepsMirrored(env: Env, c: Catalog, es: seq<Event>)
    requires Mirrored(env, c) && AcceptedRun(env, c, es)
    ensures Mirrored(env, Run(env, c, es))
  {
    if es != [] {
      RunKeepsMirrored(env, c, es[..|es| - 1]);
      ApplyKeepsMirrored(env, Run(env, c, es[..|es| - 1]), es[|es| - 1]);
    }
  }

  /** After any accepted run, every source reads the same before and after a restart. */
  lemma RestartIsInvisible(env: Env, c: Catalog, es: seq<Event>, id: string)
    requires Mirrored(env, c) && AcceptedRun(env, c, es)
    ensures GetSource(env, Run(env, c, es + [Reload]), id) == GetSource(env, Run(env, c, es), id)
  {
    RunKeepsMirrored(env, c, es);
    assert (es + [Reload])[..|es|] == es;
    ReloadReads(env, Run(env, c, es), id);
  }

  lemma ReloadReads(env: Env, c: Catalog, id: string)
    requires Mirrored(env, c)
    ensures GetSource(env, Apply(env, c, Reload), id) == GetSource(env, c, id)
  {
  }

  /** Every field the patch sets is what the record already holds. */
  predicate ChangesNothing(env: Env, r: Response, p: Patch) {
    var s := r.source;
    && (p.title.Some? ==> p.title.value == s.title)
    && (p.description.Some? ==> p.description == s.description)
    && (p.connection.Some? ==>
          p.connection.value.(config := env.normalizeConfig(p.connection.value.config)) == s.connection)
    && (p.schemaRef.Some? ==> p.schemaRef == s.schemaRef)
    && (p.tags.Some? ==> p.tags.value == s.tags)
    && (p.metadata.Some? ==> p.metadata.value == s.metadata)
  }

  /**
    A rejected update leaves memory and disk in agreement exactly when it would not have changed
    anything: the record in memory is edited before the checks that reject it.
  */
  lemma RejectedUpdateMirrorsIff(env: Env, c: Catalog, id: string, p: Patch, saved: bool)
    requires Mirrored(env, c) && id in c.memory && !EmptyPatch(p) && Rejects(env, c.memory[id], p)
    ensures Mirrored(env, Apply(env, c, Update(id, p, saved))) <==> ChangesNothing(env, c.memory[id], p)
  {
    RejectedEnrich(env, c.memory[id], p);
    UnsavedMirroredIff(env, c, id, Updated(env, c.memory[id], p));
  }

  lemma UnsavedMirroredIff(env: Env, c: Catalog, id: string, u: Response)
    requires Mirrored(env, c) && id in c.memory
    ensures Mirrored(env, Write(c, id, u, u, false)) <==> Enrich(env, u) == Enrich(env, c.memory[id])
  {
    assert c.memory[id := u].Keys == c.memory.Keys;
  }

  lemma RejectedEnrich(env: Env, r: Response, p: Patch)
    requires Rejects(env, r, p)
    ensures Enrich(env, Updated(env, r, p)) == Enrich(env, r) <==> ChangesNothing(env, r, p)
  {
    var u, s := Updated(env, r, p), r.source;
    var e, d := Enrich(env, u).source, Enrich(env, r).source;
    if ChangesNothing(env, r, p) {
      assert Edited(env, r, p) == r;
    }
  }

  // ----- verification -----

  /** The event ends in an explicit or tested Active status for `id`. */
  predicate Verifies(env: Env, c: Catalog, e: Event, id: string) {
    match e
    case Test(i, Some(result), _) => i == id && TestRuns(env, c, id) && result.success
    case SetStatus(i, status, _, _) => i == id && id in c.memory && status == Active
    case _ => false
  }

  /**
    The event registers `id` anew or sets its connection, metadata or type.  An update whose disk
    write failed counts only if `unsaved` is true: a restart undoes it.
  */
  predicate ChangesConnection(e: Event, id: string, unsaved: bool) {
    match e
    case Register(s, _, saved) => s.id == id && saved
    case Update(i, p, saved) => i == id && ConnectionImpacted(p) && (saved || unsaved)
    case _ => false
  }

  ghost predicate VerifiedSince(env: Env, c: Catalog, es: seq<Event>, id: string, unsaved: bool) {
    exists i :: 0 <= i < |es| && VerifiedAt(env, c, es, id, unsaved, i)
  }

  ghost predicate VerifiedAt(env: Env, c: Catalog, es: seq<Event>, id: string, unsaved: bool, i: nat)
    requires i < |es|
  {
    Verifies(env, Run(env, c, es[..i]), es[i], id) &&
    forall j :: i < j < |es| ==> !ChangesConnection(es[j], id, unsaved)
  }

  lemma VerifiedExtends(env: Env, c: Catalog, es: seq<Event>, e: Event, id: string, unsaved: bool)
    requires VerifiedSince(env, c, es, id, unsaved) && !ChangesConnection(e, id, unsaved)
    ensures VerifiedSince(env, c, es + [e], id, unsaved)
  {
    var i :| 0 <= i < |es| && VerifiedAt(env, c, es, id, unsaved, i);
    assert (es + [e])[..i] == es[..i];
    assert VerifiedAt(env, c, es + [e], id, unsaved, i);
  }

  lemma VerifiedNow(env: Env, c: Catalog, es: seq<Event>, e: Event, id: string, unsaved: bool)
    requires Verifies(env, Run(env, c, es), e, id)
    ensures VerifiedSince(env, c, es + [e], id, unsaved)
  {
    assert (es + [e])[..|es|] == es;
    assert VerifiedAt(env, c, es + [e], id, unsaved, |es|);
  }

  predicate RejectedUpdate(env: Env, c: Catalog, e: Event) {
    e.Update? && e.id in c.memory && !EmptyPatch(e.patch) && Rejects(env, c.memory[e.id], e.patch)
  }

  /** No update of the run is rejected; disk writes may fail and the catalog may restart. */
  predicate UnrejectedRun(env: Env, c: Catalog, es: seq<Event>) {
    es == [] ||
    (UnrejectedRun(env, c, es[..|es| - 1]) && !RejectedUpdate(env, Run(env, c, es[..|es| - 1]), es[|es| - 1]))
  }

  predicate ActiveIn(rs: Responses, id: string) {
    id in rs && rs[id].status == Active
  }

  predicate ActiveSomewhere(c: Catalog, id: string) {
    ActiveIn(c.memory, id) || ActiveIn(c.disk, id)
  }

  /** Whatever writes fail, memory and disk hold the same ids. */
  lemma {:induction false} RunKeepsIds(env: Env, c: Catalog, es: seq<Event>)
    requires c.memory.Keys == c.disk.Keys
    ensures Run(env, c, es).memory.Keys == Run(env, c, es).disk.Keys
  {
    if es != [] {
      RunKeepsIds(env, c, es[..|es| - 1]);
      ApplyKeepsIds(env, Run(env, c, es[..|es| - 1]), es[|es| - 1]);
    }
  }

  lemma ApplyKeepsIds(env: Env, c: Catalog, e: Event)
    requires c.memory.Keys == c.disk.Keys
    ensures Apply(env, c, e).memory.Keys == Apply(env, c, e).disk.Keys
  {
  }

  /** How an event other than an update can leave `id` Active: by verifying it, or by leaving an Active source alone. */
  lemma ActiveAfterOther(env: Env, c: Catalog, e: Event, id: string)
    requires !e.Update?
    ensures ActiveSomewhere(Apply(env, c, e), id) ==>
              Verifies(env, c, e, id) || (ActiveSomewhere(c, id) && !ChangesConnection(e, id, true))
    ensures ActiveIn(Apply(env, c, e).memory, id) && !e.Reload? ==>
              Verifies(env, c, e, id) || (ActiveIn(c.memory, id) && !ChangesConnection(e, id, true))
  {
  }

  lemma ActiveAfterUpdate(env: Env, c: Catalog, e: Event, id: string)
    requires c.memory.Keys == c.disk.Keys && e.Update? && !RejectedUpdate(env, c, e)
    ensures ActiveSomewhere(Apply(env, c, e), id) ==> ActiveSomewhere(c, id) && !ChangesConnection(e, id, false)
    ensures ActiveIn(Apply(env, c, e).memory, id) ==> ActiveIn(c.memory, id) && !ChangesConnection(e, id, true)
  {
    if e.id == id && id in c.memory && !EmptyPatch(e.patch) {
      assert Apply(env, c, e).memory[id] == Updated(env, c.memory[id], e.patch);
    }
  }

  /**
    Restarts and failed writes included: whenever `id` is Active in memory or on disk, it was
    verified after its last saved registration or saved connection change.
  */
  lemma {:induction false} ActiveMeansVerifiedSaved(env: Env, c: Catalog, es: seq<Event>, id: string)
    requires c.memory == map[] && c.disk == map[] && UnrejectedRun(env, c, es)
    requires ActiveSomewhere(Run(env, c, es), id)
    ensures VerifiedSince(env, c, es, id, false)
  {
    if es != [] {
      var before, e := es[..|es| - 1], es[|es| - 1];
      assert es == before + [e];
      RunKeepsIds(env, c, before);
      var b := Run(env, c, before);
      if Verifies(env, b, e, id) {
        VerifiedNow(env, c, before, e, id, false);
      } else {
        if e.Update? { ActiveAfterUpdate(env, b, e, id); } else { ActiveAfterOther(env, b, e, id); }
        ActiveMeansVerifiedSaved(env, c, before, id);
        VerifiedExtends(env, c, before, e, id, false);
      }
    }
  }

  predicate NoReload(es: seq<Event>) {
    forall i :: 0 <= i < |es| ==> !es[i].Reload?
  }

  /** Without a restart an Active source was verified after its last change, saved or not. */
  lemma {:induction false} ActiveMeansVerified(env: Env, c: Catalog, es: seq<Event>, id: string)
    requires c.memory == map[] && c.disk == map[] && UnrejectedRun(env, c, es) && NoReload(es)
    requires ActiveIn(Run(env, c, es).memory, id)
    ensures VerifiedSince(env, c, es, id, true)
  {
    if es != [] {
      var before, e := es[..|es| - 1], es[|es| - 1];
      assert es == before + [e];
      RunKeepsIds(env, c, before);
      var b := Run(env, c, before);
      if Verifies(env, b, e, id) {
        VerifiedNow(env, c, before, e, id, true);
      } else {
        if e.Update? { ActiveAfterUpdate(env, b, e, id); } else { ActiveAfterOther(env, b, e, id); }
        ActiveMeansVerified(env, c, before, id);
        VerifiedExtends(env, c, before, e, id, true);
      }
    }
  }

  predicate UpdatesSaved(es: seq<Event>) {
    forall i :: 0 <= i < |es| && es[i].Update? ==> es[i].saved
  }

  /** An unsaved connection change of `id` that no verification follows. */
  ghost predicate UnsavedAt(env: Env, c: Catalog, es: seq<Event>, id: string, u: nat)
    requires u < |es|
  {
    && ChangesConnection(es[u], id, true) && !ChangesConnection(es[u], id, false)
    && forall j :: u < j < |es| ==> !Verifies(env, Run(env, c, es[..j]), es[j], id)
  }

  ghost predicate UnsavedSince(env: Env, c: Catalog, es: seq<Event>, id: string) {
    exists u :: 0 <= u < |es| && UnsavedAt(env, c, es, id, u)
  }

  /** Such a change, undone by a later restart. */
  ghost predicate UndoneSince(env: Env, c: Catalog, es: seq<Event>, id: string) {
    exists u, r :: 0 <= u < r < |es| && UnsavedAt(env, c, es, id, u) && es[r].Reload?
  }

  lemma UnsavedExtends(env: Env, c: Catalog, es: seq<Event>, e: Event, id: string, u: nat)
    requires u < |es| && UnsavedAt(env, c, es, id, u) && !Verifies(env, Run(env, c, es), e, id)
    ensures UnsavedAt(env, c, es + [e], id, u)
  {
    var all := es + [e];
    forall j | u < j < |all| ensures !Verifies(env, Run(env, c, all[..j]), all[j], id) {
      assert all[..j] == es[..j];
    }
  }

  /** A source verified since its last saved change was verified since its last change, or has an unsaved one. */
  lemma {:induction false} SavedOrUnsaved(env: Env, c: Catalog, es: seq<Event>, id: string)
    requires VerifiedSince(env, c, es, id, false)
    ensures VerifiedSince(env, c, es, id, true) || UnsavedSince(env, c, es, id)
  {
    var before, e := es[..|es| - 1], es[|es| - 1];
    assert es == before + [e];
    var i :| 0 <= i < |es| && VerifiedAt(env, c, es, id, false, i);
    if Verifies(env, Run(env, c, before), e, id) {
      VerifiedNow(env, c, before, e, id, true);
    } else {
      assert before[..i] == es[..i];
      assert VerifiedAt(env, c, before, id, false, i);
      SavedOrUnsaved(env, c, before, id);
      if ChangesConnection(e, id, true) {
        assert UnsavedAt(env, c, es, id, |es| - 1);
      } else if VerifiedSince(env, c, before, id, true) {
        VerifiedExtends(env, c, before, e, id, true);
      } else {
        var u :| 0 <= u < |before| && UnsavedAt(env, c, before, id, u);
        UnsavedExtends(env, c, before, e, id, u);
      }
    }
  }

  lemma {:induction false} VerifiedOrUndone(env: Env, c: Catalog, es: seq<Event>, id: string)
    requires c.memory == map[] && c.disk == map[] && UnrejectedRun(env, c, es)
    requires ActiveIn(Run(env, c, es).memory, id)
    ensures VerifiedSince(env, c, es, id, true) || UndoneSince(env, c, es, id)
  {
    if es != [] {
      var before, e := es[..|es| - 1], es[|es| - 1];
      assert es == before + [e];
      var b := Run(env, c, before);
      RunKeepsIds(env, c, before);
      if Verifies(env, b, e, id) {
        VerifiedNow(env, c, before, e, id, true);
      } else if e.Reload? {
        ActiveMeansVerifiedSaved(env, c, before, id);
        SavedOrUnsaved(env, c, before, id);
        ExtendVerdict(env, c, before, e, id);
      } else {
        if e.Update? { ActiveAfterUpdate(env, b, e, id); } else { ActiveAfterOther(env, b, e, id); }
        VerifiedOrUndone(env, c, before, id);
        ExtendVerdict(env, c, before, e, id);
      }
    }
  }

  /** An event that neither verifies nor changes `id` keeps the verdict; a restart undoes an unsaved change. */
  lemma ExtendVerdict(env: Env, c: Catalog, es: seq<Event>, e: Event, id: string)
    requires !Verifies(env, Run(env, c, es), e, id) && !ChangesConnection(e, id, true)
    requires VerifiedSince(env, c, es, id, true) || UndoneSince(env, c, es, id) ||
             (e.Reload? && UnsavedSince(env, c, es, id))
    ensures VerifiedSince(env, c, es + [e], id, true) || UndoneSince(env, c, es + [e], id)
  {
    if VerifiedSince(env, c, es, id, true) {
      VerifiedExtends(env, c, es, e, id, true);
    } else if UndoneSince(env, c, es, id) {
      var u, r :| 0 <= u < r < |es| && UnsavedAt(env, c, es, id, u) && es[r].Reload?;
      UnsavedExtends(env, c, es, e, id, u);
      assert (es + [e])[r] == es[r];
    } else {
      var u :| 0 <= u < |es| && UnsavedAt(env, c, es, id, u);
      UnsavedExtends(env, c, es, e, id, u);
      assert (es + [e])[|es|] == e;
    }
  }

  /**
    In every run from an empty catalog without rejected updates, a source Active in memory was
    verified since its last change, unsaved ones counted, exactly when no unsaved change of it was
    undone by a restart without a verification after the change.
  */
  lemma VerifiedIffNotUndone(env: Env, c: Catalog, es: seq<Event>, id: string)
    requires c.memory == map[] && c.disk == map[] && UnrejectedRun(env, c, es)
    requires ActiveIn(Run(env, c, es).memory, id)
    ensures VerifiedSince(env, c, es, id, true) <==> !UndoneSince(env, c, es, id)
  {
    VerifiedOrUndone(env, c, es, id);
    if VerifiedSince(env, c, es, id, true) && UndoneSince(env, c, es, id) {
      NotBoth(env, c, es, id);
    }
  }

  lemma NotBoth(env: Env, c: Catalog, es: seq<Event>, id: string)
    requires VerifiedSince(env, c, es, id, true)
    ensures !UndoneSince(env, c, es, id)
  {
    var i :| 0 <= i < |es| && VerifiedAt(env, c, es, id, true, i);
    forall u | 0 <= u < |es| ensures !UnsavedAt(env, c, es, id, u) {
      if u > i {
        assert !ChangesConnection(es[u], id, true);
      }
    }
  }

  /** After an accepted connection change whose write fails, a restart brings back the status on disk. */
  lemma RestartAfterFailedUpdate(env: Env, c: Catalog, id: string, p: Patch)
    requires id in c.memory && ConnectionImpacted(p) && !Rejects(env, c.memory[id], p)
    ensures var c1 := Apply(env, c, Update(id, p, false));
            !ActiveIn(c1.memory, id) && (ActiveIn(Apply(env, c1, Reload).memory, id) <==> ActiveIn(c.disk, id))
  {
  }

  /**
    In every run from an empty catalog in which no update is rejected, a source that reports an
    operational capability was tested successfully or set Active after its last registration and its
    last saved connection change, and after its unsaved changes too exactly when no restart undid one
    that was not verified.
  */
  lemma OperationalMeansVerified(env: Env, c: Catalog, es: seq<Event>, id: string)
    requires c.memory == map[] && c.disk == map[] && UnrejectedRun(env, c, es)
    requires var r := GetSource(env, Run(env, c, es), id); r.Some? && ReportsOperational(r.value)
    ensures VerifiedSince(env, c, es, id, false)
    ensures VerifiedSince(env, c, es, id, true) <==> !UndoneSince(env, c, es, id)
    ensures NoReload(es) || UpdatesSaved(es) ==> VerifiedSince(env, c, es, id, true)
  {
    OperationalIsActive(env, Run(env, c, es), id);
    ActiveMeansVerifiedSaved(env, c, es, id);
    VerifiedIffNotUndone(env, c, es, id);
  }

  lemma OperationalIsActive(env: Env, c: Catalog, id: string)
    requires var r := GetSource(env, c, id); r.Some? && ReportsOperational(r.value)
    ensures ActiveIn(c.memory, id)
  {
  }

  /**
    A saved test, a connection change whose write fails, and a restart: the source is Active again,
    although its last requested change came after its last verification.
  */
  lemma FailedSaveRevivesActive(env: Env, c: Catalog, id: string, result: TestResult, p: Patch)
    requires TestRuns(env, c, id) && result.success && ConnectionImpacted(p)
    requires !Rejects(env, c.memory[id].(lastTest := Some(result), status := Active), p)
    ensures var es := [Test(id, Some(result), true), Update(id, p, false), Reload];
            && UnrejectedRun(env, c, es)
            && ActiveIn(Run(env, c, es).memory, id)
            && !VerifiedSince(env, c, es, id, true)
  {
    var test, update := Test(id, Some(result), true), Update(id, p, false);
    var es := [test, update, Reload];
    RunThree(env, c, test, update, Reload);
    assert Apply(env, c, test).disk[id].status == Active;
    assert Apply(env, Apply(env, c, test), update).disk == Apply(env, c, test).disk;
    assert ChangesConnection(es[1], id, true);
  }

  lemma RunThree(env: Env, c: Catalog, a: Event, b: Event, d: Event)
    ensures Run(env, c, [a, b, d]) == Apply(env, Apply(env, Apply(env, c, a), b), d)
    ensures UnrejectedRun(env, c, [a, b, d]) <==>
              !RejectedUpdate(env, c, a) && !RejectedUpdate(env, Apply(env, c, a), b) &&
              !RejectedUpdate(env, Apply(env, Apply(env, c, a), b), d)
  {
    assert [a, b, d][..2] == [a, b] && [a, b][..1] == [a] && [a][..0] == [];
    assert Run(env, c, [a]) == Apply(env, c, a);
    assert UnrejectedRun(env, c, [a]) <==> !RejectedUpdate(env, c, a);
  }

  predicate SameEndpoint(a: Response, b: Response) {
    a.source.connection == b.source.connection && a.source.metadata == b.source.metadata
  }

  /**
    An update leaves an Active status on an edited connection exactly when it is rejected, the
    source was Active, and the patch changes the connection or the metadata.
  */
  lemma StaleActiveIff(env: Env, r: Response, p: Patch)
    ensures var u := Updated(env, r, p);
            u.status == Active && !SameEndpoint(u, r) <==>
              r.status == Active && Rejects(env, r, p) && !SameEndpoint(Edited(env, r, p), r)
  {
  }

  /** A new connection with an empty title: the update is rejected, yet the untested endpoint is queryable. */
  lemma RejectedUpdateStaysQueryable(env: Env, c: Catalog, id: string, endpoint: Connection, saved: bool)
    requires id in c.memory && c.memory[id].status == Active
    requires env.normalizeConfig(endpoint.config).kind == PostgreSQL
    requires endpoint.(config := env.normalizeConfig(endpoint.config)) != c.memory[id].source.connection
    ensures var p := Patch(Some(""), None, None, Some(endpoint), None, None, None);
            var c' := Apply(env, c, Update(id, p, saved));
            && Rejects(env, c.memory[id], p)
            && GetSource(env, c', id).Some?
            && GetSource(env, c', id).value.source.connection != c.memory[id].source.connection
            && GetSource(env, c', id).value.capabilities.value.canQuery
  {
  }

  /** An accepted request that writes the record of `id` to disk and leaves its connection and status alone. */
  predicate Rewrites(env: Env, c: Catalog, e: Event, id: string) {
    && id in c.memory
    && match e
       case MarkSynced(i, _, saved) => i == id && saved
       case Update(i, q, saved) =>
         i == id && saved && !EmptyPatch(q) && !ConnectionImpacted(q) && !Rejects(env, c.memory[id], q)
       case _ => false
  }

  /**
    After a rejected update, the next such request makes the edit permanent: the untested endpoint is
    Active after a restart exactly when the source was Active and the rejected patch changed the endpoint.
  */
  lemma RejectedEndpointPersistsIff(env: Env, c: Catalog, id: string, p: Patch, saved: bool, e: Event)
    requires id in c.memory && !EmptyPatch(p) && Rejects(env, c.memory[id], p)
    requires Rewrites(env, Apply(env, c, Update(id, p, saved)), e, id)
    ensures var c' := Apply(env, Apply(env, Apply(env, c, Update(id, p, saved)), e), Reload);
            && id in c'.memory
            && (ActiveIn(c'.memory, id) && !SameEndpoint(c'.memory[id], c.memory[id]) <==>
                  c.memory[id].status == Active && !SameEndpoint(Edited(env, c.memory[id], p), c.memory[id]))
  {
    var r := c.memory[id];
    var c1 := Apply(env, c, Update(id, p, saved));
    assert c1.memory[id] == Updated(env, r, p);
    assert SameEndpoint(c1.memory[id], Edited(env, r, p)) && c1.memory[id].status == r.status;
    RewrittenRecord(env, c1, e, id);
  }

  /**
    A saved turn of the credential migration does the same: after a restart the rejected configuration
    is there, with its credentials promoted and the status the source had.
  */
  lemma RejectedEndpointMigrates(env: Env, c: Catalog, id: string, p: Patch, saved: bool, o: Credentials.StoreOutcome)
    requires id in c.memory && !EmptyPatch(p) && Rejects(env, c.memory[id], p) && c.secrets.Some?
    requires var s := Updated(env, c.memory[id], p).source;
             Credentials.Promote(env.secrets, s, c.secrets.value, o).2
    ensures var r, u := c.memory[id], Updated(env, c.memory[id], p);
            var c' := Apply(env, Apply(env, Apply(env, c, Update(id, p, saved)), MigrateRecord(id, o, true)), Reload);
            && id in c'.memory && c'.memory[id] == u.(source := Credentials.Promoted(env.secrets, u.source))
            && (ActiveIn(c'.memory, id) && c'.memory[id].source.connection.config != r.source.connection.config <==>
                  r.status == Active && Edited(env, r, p).source.connection.config != r.source.connection.config)
  {
    var r := c.memory[id];
    var c1 := Apply(env, c, Update(id, p, saved));
    assert c1.memory[id] == Updated(env, r, p) && c1.memory[id].status == r.status && c1.secrets == c.secrets;
  }

  lemma RewrittenRecord(env: Env, c: Catalog, e: Event, id: string)
    requires Rewrites(env, c, e, id)
    ensures var d := Apply(env, c, e).disk;
            id in d && SameEndpoint(d[id], c.memory[id]) && d[id].status == c.memory[id].status
  {
  }

  /**
    The credential migration leaves every status as it is, so an Active source stays Active whatever
    becomes of its login: that is the tested one exactly when the promotion is safe.
  */
  lemma MigratedStatusAndLogin(env: Env, c: Catalog, id: string, o: Credentials.StoreOutcome, saved: bool)
    requires Credentials.Sane(env.secrets) && id in c.memory && c.secrets.Some?
    requires Credentials.Inline(env.secrets, c.memory[id].source).Some?
    ensures var c', s := Apply(env, c, MigrateRecord(id, o, saved)), c.memory[id].source;
            && id in c'.memory && c'.memory[id].status == c.memory[id].status
            && (Credentials.SameLogin(Credentials.Resolve(env.secrets, c'.memory[id].source, c'.secrets),
                                      Credentials.Resolve(env.secrets, s, c.secrets))
                <==> Credentials.PromotionSafe(env.secrets, s, c.secrets.value, o))
  {
    Credentials.PromotionKeepsLoginIff(env.secrets, c.memory[id].source, c.secrets.value, o);
  }
}
