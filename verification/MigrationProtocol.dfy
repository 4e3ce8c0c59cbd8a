/**
  The migration as a protocol over committed database states.

  Nothing but a committed write changes the database, so a crash is a run that stops after some
  committed state, and a resumed migration is a run that goes on from there.  `Run` is therefore
  any sequence of states in which neighbours are related by one committed write, however many
  processes, crashes and failed writes it took to produce it.
*/
module MigrationProtocol {
  import opened Common
  import opened IndexFormat

  datatype MigrationStatus = OldFormat | Migrating | Complete

  /** All column families, and the status cell under the migration-status key. */
  datatype Store = Store(families: map<string, Family>, status: Option<string>)

  /** What the migration needs from outside: the value decoder and the key order of an iterator. */
  datatype Engine = Engine(decode: Decoder, scan: Family -> seq<Bytes>)

  const MIGRATABLE: seq<string> := ["record_idx", "model_idx", "run_idx", "tenant_idx"]

  ghost predicate Enumerates(keys: seq<Bytes>, f: Family) {
    && (forall i, j :: 0 <= i < j < |keys| ==> keys[i] != keys[j])
    && (forall k :: k in keys <==> k in f)
  }

  ghost predicate Faithful(e: Engine) {
    forall f: Family :: Enumerates(e.scan(f), f)
  }

  function StatusText(status: MigrationStatus): string {
    match status
    case OldFormat => "old_format"
    case Migrating => "migrating"
    case Complete => "complete"
  }

  /** True if one of the first `n` scanned entries has a non-empty, decodable value. */
  predicate Sampled(e: Engine, f: Family, n: nat) {
    var keys := e.scan(f);
    exists i :: 0 <= i < n && i < |keys| && keys[i] in f && f[keys[i]] != [] && e.decode(f[keys[i]]).Some?
  }

  predicate HasOldFormatData(e: Engine, s: Store) {
    MIGRATABLE[0] in s.families && Sampled(e, s.families[MIGRATABLE[0]], 5)
  }

  function DetectStatus(e: Engine, s: Store): MigrationStatus {
    match s.status
    case Some(text) =>
      if text == "migrating" then Migrating else if text == "complete" then Complete else OldFormat
    case None =>
      if HasOldFormatData(e, s) then OldFormat else Complete
  }

  /** A status that was set is read back, and any other text reads as the old format. */
  lemma StatusRoundTrips(e: Engine, s: Store, status: MigrationStatus, text: string)
    ensures DetectStatus(e, s.(status := Some(StatusText(status)))) == status
    ensures DetectStatus(e, s.(status := Some("migrating"))) == Migrating
    ensures DetectStatus(e, s.(status := Some("complete"))) == Complete
    ensures (forall other :: text != StatusText(other)) ==> DetectStatus(e, s.(status := Some(text))) == OldFormat
  {
    assert StatusText(OldFormat)[0] == 'o' && StatusText(Migrating)[0] == 'm' && StatusText(Complete)[0] == 'c';
  }

  predicate HasFamilies(s: Store) {
    forall i :: 0 <= i < |MIGRATABLE| ==> MIGRATABLE[i] in s.families
  }

  /** No migratable family holds an old-format entry any more. */
  predicate Clean(e: Engine, s: Store) {
    forall i :: 0 <= i < |MIGRATABLE| && MIGRATABLE[i] in s.families ==>
                  OldKeys(e.decode, s.families[MIGRATABLE[i]]) == {}
  }

  // ----- the three kinds of committed write -----

  ghost predicate Start(e: Engine, s: Store, s': Store) {
    DetectStatus(e, s) == OldFormat && s' == s.(status := Some(StatusText(Migrating)))
  }

  ghost predicate CommitBatch(e: Engine, s: Store, s': Store, cf: string, ks: set<Bytes>) {
    && cf in s.families
    && ks <= OldKeys(e.decode, s.families[cf])
    && s' == s.(families := s.families[cf := Rewrite(e.decode, s.families[cf], ks)])
  }

  ghost predicate Finish(e: Engine, s: Store, s': Store) {
    s.status == Some(StatusText(Migrating)) && HasFamilies(s) && Clean(e, s) &&
    s' == s.(status := Some(StatusText(Complete)))
  }

  ghost predicate Next(e: Engine, s: Store, s': Store) {
    || Start(e, s, s')
    || (exists cf, ks :: CommitBatch(e, s, s', cf, ks))
    || Finish(e, s, s')
  }

  ghost predicate Run(e: Engine, ss: seq<Store>) {
    |ss| > 0 && forall i, j :: 0 <= i < j < |ss| && j == i + 1 ==> Next(e, ss[i], ss[j])
  }

  // ----- what every run keeps -----

  /** `f` is `f0` with exactly its missing old entries rewritten. */
  ghost predicate PartlyRewritten(decode: Decoder, f0: Family, f: Family) {
    && OldKeys(decode, f) <= OldKeys(decode, f0)
    && f == Rewrite(decode, f0, OldKeys(decode, f0) - OldKeys(decode, f))
  }

  ghost predicate StorePartlyRewritten(e: Engine, s0: Store, s: Store) {
    && s.families.Keys == s0.families.Keys
    && forall cf :: cf in s0.families ==> PartlyRewritten(e.decode, s0.families[cf], s.families[cf])
  }

  lemma PartlyRewrittenStep(decode: Decoder, f0: Family, f: Family, ks: set<Bytes>)
    requires PartlyRewritten(decode, f0, f)
    requires ks <= OldKeys(decode, f)
    ensures PartlyRewritten(decode, f0, Rewrite(decode, f, ks))
  {
    var done := OldKeys(decode, f0) - OldKeys(decode, f);
    RewriteCompose(decode, f0, done, ks);
    RewriteOldKeys(decode, f, ks);
    assert OldKeys(decode, f0) - (OldKeys(decode, f) - ks) == done + ks;
  }

  lemma NextKeepsPartlyRewritten(e: Engine, s0: Store, s: Store, s': Store)
    requires StorePartlyRewritten(e, s0, s) && Next(e, s, s')
    ensures StorePartlyRewritten(e, s0, s')
  {
    if cf, ks :| CommitBatch(e, s, s', cf, ks) {
      PartlyRewrittenStep(e.decode, s0.families[cf], s.families[cf], ks);
    }
  }

  /** In every committed state, each family is the initial one with its missing old entries rewritten. */
  lemma {:induction false} RunIsPartialRewrite(e: Engine, ss: seq<Store>, n: nat)
    requires Run(e, ss) && n < |ss|
    ensures StorePartlyRewritten(e, ss[0], ss[n])
  {
    if n == 0 {
      forall cf | cf in ss[0].families
        ensures PartlyRewritten(e.decode, ss[0].families[cf], ss[0].families[cf])
      {
        var ks := OldKeys(e.decode, ss[0].families[cf]);
        assert ks - ks == {};
        RewriteNothing(e.decode, ss[0].families[cf]);
      }
    } else {
      RunIsPartialRewrite(e, ss, n - 1);
      NextKeepsPartlyRewritten(e, ss[0], ss[n - 1], ss[n]);
    }
  }

  /** The logical index never changes, whatever crashed and was resumed in between. */
  lemma RunPreservesIndex(e: Engine, ss: seq<Store>, n: nat, cf: string, k: Bytes)
    requires Run(e, ss) && n < |ss|
    requires cf in ss[0].families && SEPARATOR !in k
    ensures cf in ss[n].families
    ensures LogicalIds(e.decode, ss[n].families[cf], k) == LogicalIds(e.decode, ss[0].families[cf], k)
  {
    RunIsPartialRewrite(e, ss, n);
    var f0, f := ss[0].families[cf], ss[n].families[cf];
    RewritePreservesMeaning(e.decode, f0, OldKeys(e.decode, f0) - OldKeys(e.decode, f), k);
  }

  ghost predicate CompleteMeansClean(e: Engine, s: Store) {
    s.status == Some(StatusText(Complete)) ==> Clean(e, s)
  }

  lemma NextKeepsComplete(e: Engine, s: Store, s': Store)
    requires CompleteMeansClean(e, s) && Next(e, s, s')
    ensures CompleteMeansClean(e, s')
  {
    if cf, ks :| CommitBatch(e, s, s', cf, ks) {
      RewriteOldKeys(e.decode, s.families[cf], ks);
    }
  }

  /** Once a run has written "complete", no migratable family ever shows an old entry again. */
  lemma {:induction false} RunCompleteIsClean(e: Engine, ss: seq<Store>, n: nat)
    requires Run(e, ss) && n < |ss|
    requires ss[0].status != Some(StatusText(Complete))
    ensures CompleteMeansClean(e, ss[n])
  {
    if n > 0 {
      RunCompleteIsClean(e, ss, n - 1);
      NextKeepsComplete(e, ss[n - 1], ss[n]);
    }
  }

  /**
    Crashes are invisible in the outcome: every run that reaches "complete" ends in the very family
    one uninterrupted rewriting of the initial family gives, and a reader of the new format then
    finds under each key what the initial family meant.
  */
  lemma CompletedRunIsOneRewrite(e: Engine, ss: seq<Store>, n: nat, cf: string)
    requires Run(e, ss) && n < |ss|
    requires ss[0].status != Some(StatusText(Complete)) && ss[n].status == Some(StatusText(Complete))
    requires cf in MIGRATABLE && cf in ss[0].families
    ensures cf in ss[n].families
    ensures ss[n].families[cf] == Rewrite(e.decode, ss[0].families[cf], OldKeys(e.decode, ss[0].families[cf]))
    ensures forall k :: SEPARATOR !in k ==>
                          CompositeIds(ss[n].families[cf], k) == LogicalIds(e.decode, ss[0].families[cf], k)
  {
    RunIsPartialRewrite(e, ss, n);
    RunCompleteIsClean(e, ss, n);
    var f0, f := ss[0].families[cf], ss[n].families[cf];
    assert OldKeys(e.decode, f) == {};
    assert OldKeys(e.decode, f0) - {} == OldKeys(e.decode, f0);
    forall k | SEPARATOR !in k
      ensures CompositeIds(f, k) == LogicalIds(e.decode, f0, k)
    {
      RunPreservesIndex(e, ss, n, cf, k);
      assert k !in OldKeys(e.decode, f);
      assert OldIds(e.decode, f, k) == {};
    }
  }

  // ----- what the status detection sees, and what it can miss -----

  /**
    Without a status cell the database counts as old exactly when a non-empty value that decodes is
    among the first five entries of the first family; an old entry there is always detected.
  */
  lemma DetectionIffSampled(e: Engine, s: Store)
    requires Faithful(e) && s.status == None && "record_idx" in s.families
    ensures var f := s.families["record_idx"];
            var keys := e.scan(f);
            && (DetectStatus(e, s) == OldFormat <==>
                  exists i :: 0 <= i < 5 && i < |keys| && f[keys[i]] != [] && e.decode(f[keys[i]]).Some?)
            && (DetectStatus(e, s) == Complete <==>
                  forall i :: 0 <= i < 5 && i < |keys| ==> f[keys[i]] == [] || e.decode(f[keys[i]]).None?)
            && (|f| <= 5 && DetectStatus(e, s) == Complete ==> OldKeys(e.decode, f) == {})
  {
    var f := s.families["record_idx"];
    var keys := e.scan(f);
    assert MIGRATABLE[0] == "record_idx";
    assert Enumerates(keys, f);
    if |f| <= 5 && DetectStatus(e, s) == Complete {
      EnumerationSize(keys, f);
      forall k | k in f ensures !OldEntry(e.decode, f, k) {
        var i :| 0 <= i < |keys| && keys[i] == k;
      }
    }
  }

  lemma EnumerationSize(keys: seq<Bytes>, f: Family)
    requires Enumerates(keys, f)
    ensures |keys| == |f|
  {
    DistinctSize(keys);
    assert (set k | k in keys) == f.Keys;
    assert |f| == |f.Keys|;
  }

  lemma {:induction false} DistinctSize(keys: seq<Bytes>)
    requires forall i, j :: 0 <= i < j < |keys| ==> keys[i] != keys[j]
    ensures |set k | k in keys| == |keys|
  {
    if keys != [] {
      var rest, last := keys[..|keys| - 1], keys[|keys| - 1];
      DistinctSize(rest);
      assert (set k | k in keys) == (set k | k in rest) + {last};
      assert last !in rest;
    }
  }

  /** A database whose four families are there; all but the first are empty. */
  function FirstFamilyOnly(f: Family, status: Option<string>): Store {
    Store(map[MIGRATABLE[0] := f, MIGRATABLE[1] := map[], MIGRATABLE[2] := map[], MIGRATABLE[3] := map[]], status)
  }

  /**
    Five new-format entries hide an old entry that sorts after them from the status detection: the
    database opens, counts as migrated, and still holds the old entry.
  */
  lemma SamplingMissesOldData(e: Engine, keys: seq<Bytes>, late: Bytes, value: Bytes)
    requires |keys| == 5 && late !in keys
    requires forall i, j :: 0 <= i < j < 5 ==> keys[i] != keys[j]
    requires value != [] && SEPARATOR !in late && e.decode(value).Some?
    requires e.scan((map k | k in keys :: [])[late := value]) == keys + [late]
    ensures var s := FirstFamilyOnly((map k | k in keys :: [])[late := value], None);
            HasFamilies(s) && DetectStatus(e, s) == Complete && !Clean(e, s)
  {
    var f: Family := (map k | k in keys :: [])[late := value];
    var s := FirstFamilyOnly(f, None);
    assert MIGRATABLE[0][1] == 'e' && MIGRATABLE[1][0] == 'm' && MIGRATABLE[2][1] == 'u' && MIGRATABLE[3][0] == 't';
    assert s.families[MIGRATABLE[0]] == f;
    assert OldEntry(e.decode, f, late);
    assert late in OldKeys(e.decode, s.families[MIGRATABLE[0]]);
    assert forall i :: 0 <= i < 5 ==> (keys + [late])[i] == keys[i];
  }
}
