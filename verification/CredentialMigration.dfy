/**
  Promoting the inline credentials of a whole catalog, record by record, with failing secret-store
  calls, failing saves and restarts in between.
*/
module CredentialMigration {
  import opened Common
  import opened SourceTypes
  import opened Text
  import opened Credentials

  type Records = map<string, DataSource>

  /** The records in memory and on disk, and the secret store. */
  datatype Vault = Vault(memory: Records, disk: Records, store: SecretStore)

  /** One turn of the migration loop, or a restart that reloads the records from disk. */
  datatype Event = PromoteRecord(id: string, outcome: StoreOutcome, saved: bool) | Restart

  function Step(env: Env, v: Vault, e: Event): Vault {
    match e
    case Restart => v.(memory := v.disk)
    case PromoteRecord(id, o, saved) =>
      if id !in v.memory then v
      else
        var (s, store, promoted) := Promote(env, v.memory[id], v.store, o);
        if !promoted then v
        else Vault(v.memory[id := s], if saved then v.disk[id := s] else v.disk, store)
  }

  function Run(env: Env, v: Vault, es: seq<Event>): Vault {
    if es == [] then v else Step(env, Run(env, v, es[..|es| - 1]), es[|es| - 1])
  }

  // ----- when the migration is safe -----

  function Path(env: Env, s: DataSource): string {
    StorePath(EffectiveRef(env, s))
  }

  predicate IsInline(env: Env, s: DataSource) {
    Inline(env, s).Some?
  }

  /** Resolving `s`, before or after its promotion, may look at store path `p`. */
  predicate Reads(env: Env, s: DataSource, p: string) {
    || (Trim(env.space, s.connection.secretRef) != "" && (p == StorePath(s.connection.secretRef) || p == s.connection.secretRef))
    || (IsInline(env, s) && (p == Path(env, s) || p == EffectiveRef(env, s)))
  }

  /** The paths that promotions write are not in use yet, and no other record reads them. */
  ghost predicate Isolated(env: Env, origin: Records, store: SecretStore) {
    && (forall id, p :: id in origin && IsInline(env, origin[id]) && Reads(env, origin[id], p) ==> p !in store)
    && (forall id, other :: id in origin && other in origin && id != other && IsInline(env, origin[id]) ==>
          !Reads(env, origin[other], Path(env, origin[id])))
  }

  // ----- the invariant -----

  ghost predicate OwnSecret(env: Env, origin: Records, p: string, v: SecretValue) {
    exists id :: id in origin && IsInline(env, origin[id]) && p == Path(env, origin[id]) &&
                 v == KeyValue(Inline(env, origin[id]).value)
  }

  /** The store is the initial one plus secrets that hold the inline credentials of their record. */
  ghost predicate StoreGrown(env: Env, origin: Records, store0: SecretStore, store: SecretStore) {
    && (forall p :: p in store0 ==> p in store && store[p] == store0[p])
    && (forall p :: p in store && p !in store0 ==> OwnSecret(env, origin, p, store[p]))
  }

  /** Each record is its original, or its promoted form with its secret in place. */
  ghost predicate RecordsOk(env: Env, origin: Records, records: Records, store: SecretStore) {
    && records.Keys == origin.Keys
    && forall id :: id in origin ==> RecordOk(env, origin[id], records[id], store)
  }

  ghost predicate RecordOk(env: Env, original: DataSource, s: DataSource, store: SecretStore) {
    s == original || (IsInline(env, original) && s == Promoted(env, original) && Path(env, original) in store)
  }

  ghost predicate Ok(env: Env, origin: Records, store0: SecretStore, v: Vault) {
    && StoreGrown(env, origin, store0, v.store)
    && RecordsOk(env, origin, v.memory, v.store)
    && RecordsOk(env, origin, v.disk, v.store)
  }

  /** A path written for `id` holds the inline credentials of `id`. */
  lemma SecretIsOwn(env: Env, origin: Records, store0: SecretStore, store: SecretStore, id: string)
    requires Isolated(env, origin, store0) && StoreGrown(env, origin, store0, store)
    requires id in origin && IsInline(env, origin[id]) && Path(env, origin[id]) in store
    ensures store[Path(env, origin[id])] == KeyValue(Inline(env, origin[id]).value)
  {
    var p := Path(env, origin[id]);
    assert Reads(env, origin[id], p);
    var other :| other in origin && IsInline(env, origin[other]) && p == Path(env, origin[other]) &&
                 store[p] == KeyValue(Inline(env, origin[other]).value);
    if other != id {
      assert !Reads(env, origin[id], Path(env, origin[other]));
    }
  }

  /** What a record reads from the grown store: as initially, except for its own secret. */
  lemma ReadsAreStable(env: Env, origin: Records, store0: SecretStore, store: SecretStore, id: string, p: string)
    requires Isolated(env, origin, store0) && StoreGrown(env, origin, store0, store)
    requires id in origin && Reads(env, origin[id], p)
    ensures p in store0 ==> p in store && store[p] == store0[p]
    ensures p in store && p !in store0 ==>
              IsInline(env, origin[id]) && p == Path(env, origin[id]) &&
              store[p] == KeyValue(Inline(env, origin[id]).value)
  {
    if p in store && p !in store0 {
      var other :| other in origin && IsInline(env, origin[other]) && p == Path(env, origin[other]) &&
                   store[p] == KeyValue(Inline(env, origin[other]).value);
      if other != id {
        assert !Reads(env, origin[id], Path(env, origin[other]));
      }
    }
  }

  /**
    A record loses its login: it lived on the empty login, and now its unusable credential keys are
    read from the store, because it is promoted or because its own reference names that secret.
  */
  predicate LosesLogin(env: Env, original: DataSource, s: DataSource, store: SecretStore) {
    IsInline(env, original) && LivesOnEmptyLogin(env, original) && (s == original ==> !Unread(env, original, store))
  }

  /** A record that is still original resolves as it did at the start, unless it loses its login. */
  lemma OriginalLogin(env: Env, origin: Records, store0: SecretStore, store: SecretStore, id: string)
    requires Sane(env) && Isolated(env, origin, store0) && StoreGrown(env, origin, store0, store)
    requires id in origin
    ensures SameLogin(Resolve(env, origin[id], Some(store)), Resolve(env, origin[id], Some(store0)))
       <==> !LosesLogin(env, origin[id], origin[id], store)
  {
    var s := origin[id];
    var ref := s.connection.secretRef;
    if s.connection.credentials == map[] && Trim(env.space, ref) != "" {
      ReadsAreStable(env, origin, store0, store, id, StorePath(ref));
      ReadsAreStable(env, origin, store0, store, id, ref);
      FilterKeepsLogin(env, s.metadata);
      if IsInline(env, s) {
        assert StorePath(ref) !in store0 && ref !in store0 by {
          assert Reads(env, s, StorePath(ref)) && Reads(env, s, ref);
        }
      }
    }
  }

  /** A promoted record resolves as its original did at the start, unless that lived on the empty login. */
  lemma PromotedLogin(env: Env, origin: Records, store0: SecretStore, store: SecretStore, id: string)
    requires Sane(env) && Isolated(env, origin, store0) && StoreGrown(env, origin, store0, store)
    requires id in origin && IsInline(env, origin[id]) && Path(env, origin[id]) in store
    ensures SameLogin(Resolve(env, Promoted(env, origin[id]), Some(store)), Resolve(env, origin[id], Some(store0)))
       <==> !LivesOnEmptyLogin(env, origin[id])
  {
    var s := origin[id];
    SecretIsOwn(env, origin, store0, store, id);
    PromotedResolution(env, s, store);
    var ref := s.connection.secretRef;
    if Trim(env.space, ref) != "" {
      assert Reads(env, s, StorePath(ref)) && Reads(env, s, ref);
    }
  }

  lemma StepKeepsOk(env: Env, origin: Records, store0: SecretStore, v: Vault, e: Event)
    requires Isolated(env, origin, store0) && Ok(env, origin, store0, v)
    ensures Ok(env, origin, store0, Step(env, v, e))
  {
    if e.PromoteRecord? && e.id in v.memory {
      var original := origin[e.id];
      if v.memory[e.id] == original {
        PromoteOriginal(env, origin, store0, v, e);
      } else {
        PromotedHasNoInline(env, original, v.store, e.outcome);
      }
    }
  }

  /** The store after promoting an original record. */
  lemma PromoteOriginalStore(env: Env, origin: Records, store0: SecretStore, store: SecretStore, id: string, o: StoreOutcome)
    requires Isolated(env, origin, store0) && StoreGrown(env, origin, store0, store)
    requires id in origin
    ensures var (s, store', promoted) := Promote(env, origin[id], store, o);
            promoted ==>
              && s == Promoted(env, origin[id]) && IsInline(env, origin[id])
              && Path(env, origin[id]) in store' && store.Keys <= store'.Keys
              && StoreGrown(env, origin, store0, store')
  {
    if IsInline(env, origin[id]) {
      ExistingSecretIsOwn(env, origin, store0, store, id);
      var p, creds := Path(env, origin[id]), KeyValue(Inline(env, origin[id]).value);
      assert OwnSecret(env, origin, p, creds);
      assert Reads(env, origin[id], p);
      StoreGrownPut(env, origin, store0, store, p, creds);
    }
  }

  lemma ExistingSecretIsOwn(env: Env, origin: Records, store0: SecretStore, store: SecretStore, id: string)
    requires Isolated(env, origin, store0) && StoreGrown(env, origin, store0, store)
    requires id in origin && IsInline(env, origin[id])
    ensures ExistsByRef(store, EffectiveRef(env, origin[id])) ==> Path(env, origin[id]) in store
  {
    assert Reads(env, origin[id], EffectiveRef(env, origin[id]));
    ReadsAreStable(env, origin, store0, store, id, EffectiveRef(env, origin[id]));
  }

  lemma StoreGrownPut(env: Env, origin: Records, store0: SecretStore, store: SecretStore, p: string, v: SecretValue)
    requires StoreGrown(env, origin, store0, store) && p !in store0 && OwnSecret(env, origin, p, v)
    ensures StoreGrown(env, origin, store0, store[p := v])
  {
    var store' := store[p := v];
    forall q | q in store' && q !in store0 ensures OwnSecret(env, origin, q, store'[q]) {
      if q != p {
        assert OwnSecret(env, origin, q, store[q]);
      }
    }
  }

  lemma RecordsOkStep(env: Env, origin: Records, records: Records, store: SecretStore, store': SecretStore, id: string)
    requires RecordsOk(env, origin, records, store) && store.Keys <= store'.Keys
    requires id in origin && IsInline(env, origin[id]) && Path(env, origin[id]) in store'
    ensures RecordsOk(env, origin, records, store')
    ensures RecordsOk(env, origin, records[id := Promoted(env, origin[id])], store')
  {
    forall i | i in origin ensures RecordOk(env, origin[i], records[i], store') {
      assert RecordOk(env, origin[i], records[i], store);
    }
    var updated := records[id := Promoted(env, origin[id])];
    assert updated.Keys == origin.Keys;
  }

  lemma PromoteOriginal(env: Env, origin: Records, store0: SecretStore, v: Vault, e: Event)
    requires Isolated(env, origin, store0) && Ok(env, origin, store0, v)
    requires e.PromoteRecord? && e.id in origin && v.memory[e.id] == origin[e.id]
    ensures Ok(env, origin, store0, Step(env, v, e))
  {
    PromoteOriginalStore(env, origin, store0, v.store, e.id, e.outcome);
    var (s, store, promoted) := Promote(env, origin[e.id], v.store, e.outcome);
    if promoted {
      RecordsOkStep(env, origin, v.memory, v.store, store, e.id);
      RecordsOkStep(env, origin, v.disk, v.store, store, e.id);
    }
  }

  lemma {:induction false} RunKeepsOk(env: Env, origin: Records, store0: SecretStore, es: seq<Event>)
    requires Isolated(env, origin, store0)
    ensures Ok(env, origin, store0, Run(env, Vault(origin, origin, store0), es))
  {
    if es != [] {
      RunKeepsOk(env, origin, store0, es[..|es| - 1]);
      StepKeepsOk(env, origin, store0, Run(env, Vault(origin, origin, store0), es[..|es| - 1]), es[|es| - 1]);
    }
  }

  /**
    After every sequence of loop turns, store failures, save failures and restarts, each record, in
    memory and on disk, resolves to the username and password it resolved to at the start (or still
    does not resolve), exactly unless it loses the empty login it lived on.  What other records live
    on does not matter.
  */
  lemma MigrationKeepsLogins(env: Env, origin: Records, store0: SecretStore, es: seq<Event>, id: string)
    requires Sane(env) && Isolated(env, origin, store0) && id in origin
    ensures var v := Run(env, Vault(origin, origin, store0), es);
            && id in v.memory && id in v.disk
            && (SameLogin(Resolve(env, v.memory[id], Some(v.store)), Resolve(env, origin[id], Some(store0)))
                <==> !LosesLogin(env, origin[id], v.memory[id], v.store))
            && (SameLogin(Resolve(env, v.disk[id], Some(v.store)), Resolve(env, origin[id], Some(store0)))
                <==> !LosesLogin(env, origin[id], v.disk[id], v.store))
  {
    RunKeepsOk(env, origin, store0, es);
    var v := Run(env, Vault(origin, origin, store0), es);
    RecordLogin(env, origin, store0, v.store, v.memory[id], id);
    RecordLogin(env, origin, store0, v.store, v.disk[id], id);
  }

  lemma RecordLogin(env: Env, origin: Records, store0: SecretStore, store: SecretStore, s: DataSource, id: string)
    requires Sane(env) && Isolated(env, origin, store0) && StoreGrown(env, origin, store0, store)
    requires id in origin && RecordOk(env, origin[id], s, store)
    ensures SameLogin(Resolve(env, s, Some(store)), Resolve(env, origin[id], Some(store0)))
       <==> !LosesLogin(env, origin[id], s, store)
  {
    if s == origin[id] {
      OriginalLogin(env, origin, store0, store, id);
    } else {
      PromotedLogin(env, origin, store0, store, id);
    }
  }

  /** Records without inline credentials make every further turn of the loop a no-op. */
  lemma IdleWithoutInline(env: Env, v: Vault, e: Event)
    requires forall id :: id in v.memory ==> !IsInline(env, v.memory[id])
    requires e.PromoteRecord?
    ensures Step(env, v, e) == v
  {
  }

  /** A turn whose store write gets through leaves the record without inline credentials. */
  lemma TurnRemovesInline(env: Env, v: Vault, e: Event)
    requires e.PromoteRecord? && e.id in v.memory && !e.outcome.putFails
    ensures !IsInline(env, Step(env, v, e).memory[e.id])
    ensures forall id :: id in v.memory && id != e.id ==> Step(env, v, e).memory[id] == v.memory[id]
  {
    PromotedHasNoInline(env, v.memory[e.id], v.store, e.outcome);
  }

  /** A pass of the loop over records that are all in memory, with store writes that all get through. */
  ghost predicate CleanPass(v: Vault, es: seq<Event>) {
    forall i :: 0 <= i < |es| ==> es[i].PromoteRecord? && es[i].id in v.memory && !es[i].outcome.putFails
  }

  /** The records a pass visits. */
  ghost function Visited(es: seq<Event>): set<string> {
    set i | 0 <= i < |es| && es[i].PromoteRecord? :: es[i].id
  }

  ghost predicate Pass(es: seq<Event>) {
    forall i :: 0 <= i < |es| ==> es[i].PromoteRecord?
  }

  lemma AppendTurn(env: Env, v: Vault, es: seq<Event>, e: Event)
    requires Pass(es) && e.PromoteRecord?
    ensures Pass(es + [e]) && Visited(es + [e]) == Visited(es) + {e.id}
    ensures Run(env, v, es + [e]) == Step(env, Run(env, v, es), e)
  {
    assert (es + [e])[..|es|] == es;
    var all := es + [e];
    assert all[|es|] == e;
    forall id | id in Visited(es) ensures id in Visited(all) {
      var i :| 0 <= i < |es| && es[i].PromoteRecord? && es[i].id == id;
      assert all[i] == es[i];
    }
  }

  ghost predicate NoneInline(env: Env, records: Records, ids: set<string>) {
    forall id :: id in ids && id in records ==> !IsInline(env, records[id])
  }

  lemma {:induction false} PassRemovesInline(env: Env, v: Vault, es: seq<Event>)
    requires CleanPass(v, es)
    ensures Run(env, v, es).memory.Keys == v.memory.Keys
    ensures NoneInline(env, Run(env, v, es).memory, Visited(es))
  {
    if es != [] {
      var before, e := es[..|es| - 1], es[|es| - 1];
      assert es == before + [e];
      PassRemovesInline(env, v, before);
      AppendTurn(env, v, before, e);
      TurnRemovesInline(env, Run(env, v, before), e);
    }
  }

  /** After a clean pass over every record, a further pass changes nothing. */
  lemma {:induction false} SecondPassIsIdle(env: Env, v: Vault, es: seq<Event>, again: seq<Event>)
    requires CleanPass(v, es) && Visited(es) == v.memory.Keys && Pass(again)
    ensures Run(env, Run(env, v, es), again) == Run(env, v, es)
  {
    if again != [] {
      SecondPassIsIdle(env, v, es, again[..|again| - 1]);
      PassRemovesInline(env, v, es);
      IdleWithoutInline(env, Run(env, v, es), again[|again| - 1]);
    }
  }
}
