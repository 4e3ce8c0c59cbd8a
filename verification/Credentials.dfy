/**
  How a data source resolves to a login, and the promotion of its inline credentials into the
  secret store.
*/
module Credentials {
  import opened Common
  import opened SourceTypes
  import opened Text

  type SecretStore = map<string, SecretValue>

  /** `Structured` stands for a JSON or JSON-text secret: its fields, or None if it is not an object. */
  datatype SecretValue = KeyValue(fields: map<string, string>) | Structured(parsed: Option<map<string, string>>) | Binary

  datatype Creds = Creds(username: string, password: string, additional: map<string, string>)

  /** Lower-casing, white space, and which connector types need no credentials. */
  datatype Env = Env(lower: string -> string, space: char -> bool, allowEmpty: SourceKind -> bool)

  const CREDENTIAL_KEYS: set<string> := {
    "username", "password", "user", "pass", "access_key_id", "secret_access_key", "token",
    "access_token", "session_token", "api_key", "apikey", "client_id", "client_secret" }

  /** Lower-casing leaves the (lower-case) credential keys alone, and 'v' is not white space. */
  ghost predicate Sane(env: Env) {
    (forall k :: k in CREDENTIAL_KEYS ==> env.lower(k) == k) && !env.space('v')
  }

  predicate IsCredentialKey(env: Env, k: string) {
    env.lower(k) in CREDENTIAL_KEYS
  }

  function FilterKeys(env: Env, m: map<string, string>): map<string, string> {
    map k | k in m && IsCredentialKey(env, k) :: m[k]
  }

  function StripKeys(env: Env, m: map<string, string>): map<string, string> {
    map k | k in m && !IsCredentialKey(env, k) :: m[k]
  }

  function Additional(m: map<string, string>): map<string, string> {
    m - {"username", "password"}
  }

  function FromMap(m: map<string, string>): Option<Creds> {
    if "username" in m && "password" in m then Some(Creds(m["username"], m["password"], Additional(m)))
    else if "user" in m && "pass" in m then Some(Creds(m["user"], m["pass"], Additional(m)))
    else if "access_key_id" in m && "secret_access_key" in m then
      Some(Creds(m["access_key_id"], m["secret_access_key"], Additional(m)))
    else if "token" in m then Some(Creds("token", m["token"], Additional(m)))
    else if "access_token" in m then Some(Creds("token", m["access_token"], Additional(m)))
    else None
  }

  function FromSecret(v: SecretValue): Option<Creds> {
    match v
    case KeyValue(m) => FromMap(m)
    case Structured(Some(m)) => FromMap(m)
    case Structured(None) => None
    case Binary => None
  }

  // ----- what a login is -----

  /** The key pairs that make a login, by precedence, and the keys of a bare token. */
  const PAIRS: seq<(string, string)> :=
    [("username", "password"), ("user", "pass"), ("access_key_id", "secret_access_key")]

  const TOKENS: seq<string> := ["token", "access_token"]

  predicate HasPair(m: map<string, string>, i: nat)
    requires i < |PAIRS|
  {
    PAIRS[i].0 in m && PAIRS[i].1 in m
  }

  predicate HasNoPair(m: map<string, string>) {
    forall i :: 0 <= i < |PAIRS| ==> !HasPair(m, i)
  }

  /** The keys in `m` stand for this username and password: the first complete pair, else the first token. */
  predicate LogsInAs(m: map<string, string>, username: string, password: string) {
    || (exists i :: 0 <= i < |PAIRS| && HasPair(m, i) && (forall j :: 0 <= j < i ==> !HasPair(m, j)) &&
                    username == m[PAIRS[i].0] && password == m[PAIRS[i].1])
    || (HasNoPair(m) && username == "token" &&
        exists i :: 0 <= i < |TOKENS| && TOKENS[i] in m && (forall j :: 0 <= j < i ==> TOKENS[j] !in m) &&
                    password == m[TOKENS[i]])
  }

  predicate HasNoLogin(m: map<string, string>) {
    HasNoPair(m) && forall i :: 0 <= i < |TOKENS| ==> TOKENS[i] !in m
  }

  predicate Gives(o: Option<Creds>, username: string, password: string) {
    o.Some? && o.value.username == username && o.value.password == password
  }

  /** A map of keys gives exactly the login it stands for, none exactly when it holds none, and the other keys. */
  lemma LoginMeaning(m: map<string, string>, u: string, p: string)
    ensures Gives(FromMap(m), u, p) <==> LogsInAs(m, u, p)
    ensures FromMap(m) == None <==> HasNoLogin(m)
    ensures FromMap(m).Some? ==>
              var extra := FromMap(m).value.additional;
              && (forall k :: k in extra <==> k in m && k != "username" && k != "password")
              && (forall k :: k in extra ==> extra[k] == m[k])
  {
    assert PAIRS[0] == ("username", "password") && PAIRS[1] == ("user", "pass")
        && PAIRS[2] == ("access_key_id", "secret_access_key") && TOKENS[0] == "token" && TOKENS[1] == "access_token";
    assert HasPair(m, 0) <==> "username" in m && "password" in m;
    assert HasPair(m, 1) <==> "user" in m && "pass" in m;
    assert HasPair(m, 2) <==> "access_key_id" in m && "secret_access_key" in m;
  }

  /** A user name and a password under their usual keys are the login, whatever else is there. */
  lemma UsernameAndPassword(extra: map<string, string>, u: string, p: string)
    ensures Gives(FromMap(extra["username" := u]["password" := p]), u, p)
  {
    var m := extra["username" := u]["password" := p];
    assert PAIRS[0] == ("username", "password");
    assert "username" != "password";
    assert HasPair(m, 0) && m[PAIRS[0].0] == u && m[PAIRS[0].1] == p;
    LoginMeaning(m, u, p);
  }

  // ----- secret references -----

  function StorePath(ref: string): string {
    if HasPrefix(ref, "vault://") then ref[8..]
    else if HasPrefix(ref, "aws://") then ref[6..]
    else if HasPrefix(ref, "env://") then ref[6..]
    else ref
  }

  function GetByRef(store: SecretStore, ref: string): Option<SecretValue> {
    if StorePath(ref) in store then Some(store[StorePath(ref)])
    else if ref in store then Some(store[ref])
    else None
  }

  predicate ExistsByRef(store: SecretStore, ref: string) {
    StorePath(ref) in store || ref in store
  }

  /** The scheme of a reference is not part of the path it is stored under, and a path without one is kept. */
  lemma StorePathDropsScheme(path: string)
    ensures StorePath("vault://" + path) == path
    ensures StorePath("aws://" + path) == path
    ensures StorePath("env://" + path) == path
    ensures (forall scheme :: scheme in {"vault://", "aws://", "env://"} ==> !HasPrefix(path, scheme)) ==>
              StorePath(path) == path
  {
    var vault, aws, environment := "vault://" + path, "aws://" + path, "env://" + path;
    assert vault[..8] == "vault://" && vault[8..] == path;
    assert aws[..6] == "aws://" && aws[6..] == path && aws[0] == 'a';
    assert environment[..6] == "env://" && environment[6..] == path && environment[0] == 'e';
    assert !HasPrefix(aws, "vault://") && !HasPrefix(environment, "vault://") && !HasPrefix(environment, "aws://");
    assert "vault://" in {"vault://", "aws://", "env://"} && "aws://" in {"vault://", "aws://", "env://"}
        && "env://" in {"vault://", "aws://", "env://"};
  }

  function DefaultRef(s: DataSource): string {
    "vault://datasources/" + AfterLastColon(s.id) + "/credentials"
  }

  /** The reference a promotion writes to: the trimmed one if there is one, else the default. */
  function EffectiveRef(env: Env, s: DataSource): string {
    var trimmed := Trim(env.space, s.connection.secretRef);
    if trimmed == "" then DefaultRef(s) else trimmed
  }

  lemma EffectiveRefVisible(env: Env, s: DataSource)
    requires Sane(env)
    ensures Trim(env.space, EffectiveRef(env, s)) != ""
  {
    TrimProps(env.space, s.connection.secretRef);
    var d := DefaultRef(s);
    assert d[0] == 'v';
    TrimProps(env.space, d);
  }

  // ----- resolution -----

  /** The login of a source.  `store` is None while no secret store is configured. */
  function Resolve(env: Env, s: DataSource, store: Option<SecretStore>): Option<Creds> {
    if s.connection.credentials != map[] then FromMap(s.connection.credentials)
    else if store.Some? && Trim(env.space, s.connection.secretRef) != "" &&
            GetByRef(store.value, s.connection.secretRef).Some? then
      FromSecret(GetByRef(store.value, s.connection.secretRef).value)
    else Fallback(env, s)
  }

  function Fallback(env: Env, s: DataSource): Option<Creds> {
    match FromMap(s.metadata)
    case Some(c) => Some(c)
    case None => if env.allowEmpty(s.sourceType) then Some(Creds("", "", map[])) else None
  }

  /** The fields of a secret; None for one that has none. */
  function Fields(v: SecretValue): Option<map<string, string>> {
    match v
    case KeyValue(m) => Some(m)
    case Structured(parsed) => parsed
    case Binary => None
  }

  /**
    The order of resolution: the connection's own credentials, whatever else there is; then the secret
    under the reference, at its path or else under the reference itself; then the metadata; then, for
    connectors that need no credentials, the empty login.
  */
  lemma ResolutionOrder(env: Env, s: DataSource, store: SecretStore, configured: bool, u: string, p: string)
    ensures var ref, own := s.connection.secretRef, s.connection.credentials;
            var path := StorePath(ref);
            var consulted := configured && !Blank(env.space, ref);
            var answer := Resolve(env, s, if configured then Some(store) else None);
            && (own != map[] ==> (Gives(answer, u, p) <==> LogsInAs(own, u, p)))
            && (own == map[] && consulted && path in store ==>
                  (Gives(answer, u, p) <==> Fields(store[path]).Some? && LogsInAs(Fields(store[path]).value, u, p)))
            && (own == map[] && consulted && path !in store && ref in store ==>
                  (Gives(answer, u, p) <==> Fields(store[ref]).Some? && LogsInAs(Fields(store[ref]).value, u, p)))
            && (own == map[] && (!consulted || (path !in store && ref !in store)) ==>
                  (Gives(answer, u, p) <==>
                     || LogsInAs(s.metadata, u, p)
                     || (HasNoLogin(s.metadata) && env.allowEmpty(s.sourceType) && u == "" && p == "")))
  {
    var ref, path := s.connection.secretRef, StorePath(s.connection.secretRef);
    TrimProps(env.space, ref);
    if Blank(env.space, ref) {
      TrimExact(env.space, ref, "", "");
      assert ref + "" + "" == ref;
    }
    LoginMeaning(s.connection.credentials, u, p);
    LoginMeaning(s.metadata, u, p);
    if path in store && Fields(store[path]).Some? {
      LoginMeaning(Fields(store[path]).value, u, p);
    }
    if ref in store && Fields(store[ref]).Some? {
      LoginMeaning(Fields(store[ref]).value, u, p);
    }
  }

  /** Both resolve to the same username and password, or neither resolves. */
  predicate SameLogin(a: Option<Creds>, b: Option<Creds>) {
    match (a, b)
    case (Some(x), Some(y)) => x.username == y.username && x.password == y.password
    case (None, None) => true
    case _ => false
  }

  /** Dropping the keys that are no credential keys does not change the login. */
  lemma FilterKeepsLogin(env: Env, m: map<string, string>)
    requires Sane(env)
    ensures SameLogin(FromMap(FilterKeys(env, m)), FromMap(m))
  {
    var f := FilterKeys(env, m);
    assert forall k :: k in CREDENTIAL_KEYS ==> (k in f <==> k in m) && (k in m ==> f[k] == m[k]);
  }

  // ----- promotion -----

  function Inline(env: Env, s: DataSource): Option<map<string, string>> {
    if s.connection.credentials != map[] then Some(s.connection.credentials)
    else
      var filtered := FilterKeys(env, s.metadata);
      if filtered == map[] then None else Some(filtered)
  }

  /** The record a successful promotion leaves behind. */
  function Promoted(env: Env, s: DataSource): DataSource {
    s.(connection := s.connection.(secretRef := EffectiveRef(env, s), credentials := map[]),
       metadata := StripKeys(env, s.metadata))
  }

  /** How the calls into the secret store went. */
  datatype StoreOutcome = StoreOutcome(checkFails: bool, putFails: bool)

  /** The source, the store and whether the source was promoted. */
  function Promote(env: Env, s: DataSource, store: SecretStore, o: StoreOutcome): (DataSource, SecretStore, bool) {
    match Inline(env, s)
    case None => (s, store, false)
    case Some(creds) =>
      var ref := EffectiveRef(env, s);
      if !o.checkFails && ExistsByRef(store, ref) then (Promoted(env, s), store, true)
      else if o.putFails then (s, store, false)
      else (Promoted(env, s), store[StorePath(ref) := KeyValue(creds)], true)
  }

  /** `part` is what `whole` holds under the keys that are credential keys in lower case, or under the others. */
  ghost predicate IsPart(env: Env, part: map<string, string>, whole: map<string, string>, credentials: bool) {
    && (forall k :: k in part <==> k in whole && credentials == (env.lower(k) in CREDENTIAL_KEYS))
    && (forall k :: k in part ==> part[k] == whole[k])
  }

  /** Where the secret of a source without a reference is stored, by the last segment of its id. */
  function DefaultPath(segment: string): string {
    "datasources/" + segment + "/credentials"
  }

  lemma DefaultRefPath(s: DataSource)
    ensures DefaultRef(s) == "vault://" + DefaultPath(AfterLastColon(s.id))
    ensures StorePath(DefaultRef(s)) == DefaultPath(AfterLastColon(s.id))
  {
    var path := DefaultPath(AfterLastColon(s.id));
    assert DefaultRef(s) == "vault://" + path;
    StorePathDropsScheme(path);
  }

  /** The reference and the path of a promotion: those of the trimmed reference, or of the id if that is blank. */
  lemma EffectiveRefMeaning(env: Env, s: DataSource, left: string, ref: string, right: string)
    requires Blank(env.space, left) && Blank(env.space, right) && Trimmed(env.space, ref)
    requires s.connection.secretRef == left + ref + right
    ensures ref != "" ==> EffectiveRef(env, s) == ref
    ensures ref == "" ==> EffectiveRef(env, s) == "vault://" + DefaultPath(AfterLastColon(s.id))
    ensures ref == "" ==> StorePath(EffectiveRef(env, s)) == DefaultPath(AfterLastColon(s.id))
  {
    TrimExact(env.space, left, ref, right);
    DefaultRefPath(s);
  }

  /**
    What a promotion that writes its secret does: exactly one path of the store changes; the secret
    holds the connection's credentials, or else the credential keys of the metadata; the record refers
    to the secret, keeps no credential, and keeps the other metadata and everything else.
  */
  lemma PromotionMoves(env: Env, s: DataSource, store: SecretStore, o: StoreOutcome)
    requires Inline(env, s).Some? && !Reuses(env, s, store, o) && !o.putFails
    ensures var (s', store', promoted) := Promote(env, s, store, o);
            var path := StorePath(EffectiveRef(env, s));
            && promoted && path in store' && store'[path].KeyValue?
            && store' == store[path := store'[path]]
            && (if s.connection.credentials != map[] then store'[path].fields == s.connection.credentials
                else IsPart(env, store'[path].fields, s.metadata, true))
            && s'.connection == s.connection.(secretRef := EffectiveRef(env, s), credentials := map[])
            && IsPart(env, s'.metadata, s.metadata, false)
            && s' == s.(connection := s'.connection, metadata := s'.metadata)
  {
    CredentialKeys(env, s.metadata);
  }

  /**
    When a record is promoted: it holds credentials in its connection or under a credential key, and
    either the store is seen to hold a secret under its reference, which stays as it is, or the write
    gets through.  Otherwise nothing changes.
  */
  lemma PromotedIff(env: Env, s: DataSource, store: SecretStore, o: StoreOutcome)
    ensures var (s', store', promoted) := Promote(env, s, store, o);
            var ref := EffectiveRef(env, s);
            var holds := s.connection.credentials != map[] ||
                         exists k :: k in s.metadata && env.lower(k) in CREDENTIAL_KEYS;
            var found := !o.checkFails && (StorePath(ref) in store || ref in store);
            && (promoted <==> holds && (found || !o.putFails))
            && (!promoted ==> s' == s && store' == store)
            && (promoted ==> s' == Promoted(env, s))
            && (promoted && found ==> store' == store)
  {
    CredentialKeys(env, s.metadata);
    if k :| k in s.metadata && env.lower(k) in CREDENTIAL_KEYS {
      assert k in FilterKeys(env, s.metadata);
    }
  }

  lemma CredentialKeys(env: Env, m: map<string, string>)
    ensures IsPart(env, FilterKeys(env, m), m, true) && IsPart(env, StripKeys(env, m), m, false)
  {
  }

  /** The credential keys are these thirteen. */
  lemma CredentialKeysAre(k: string)
    ensures k in CREDENTIAL_KEYS <==>
              || k == "username" || k == "password" || k == "user" || k == "pass"
              || k == "access_key_id" || k == "secret_access_key" || k == "token" || k == "access_token"
              || k == "session_token" || k == "api_key" || k == "apikey" || k == "client_id" || k == "client_secret"
  {
  }

  /** Sources without a reference share their secret exactly when their ids end in the same segment. */
  lemma DefaultPathsDistinctIff(a: DataSource, b: DataSource)
    ensures StorePath(DefaultRef(a)) == StorePath(DefaultRef(b)) <==> AfterLastColon(a.id) == AfterLastColon(b.id)
  {
    DefaultRefPath(a);
    DefaultRefPath(b);
    SameBetween("datasources/", AfterLastColon(a.id), AfterLastColon(b.id), "/credentials");
  }

  lemma SameBetween(before: string, x: string, y: string, after: string)
    ensures before + x + after == before + y + after ==> x == y
  {
    var p, q := before + x + after, before + y + after;
    if p == q {
      assert |p| == |before| + |x| + |after| && |q| == |before| + |y| + |after|;
      assert x == p[|before|..|before| + |x|] && y == q[|before|..|before| + |y|];
    }
  }

  /** A promoted record holds no credential key any more, so a second promotion does nothing. */
  lemma PromotedHasNoInline(env: Env, s: DataSource, store: SecretStore, o: StoreOutcome)
    ensures Inline(env, Promoted(env, s)) == None
    ensures forall k :: k in Promoted(env, s).metadata ==> !IsCredentialKey(env, k)
    ensures Promote(env, Promoted(env, s), store, o) == (Promoted(env, s), store, false)
  {
    assert FilterKeys(env, StripKeys(env, s.metadata)) == map[];
  }

  /** Resolution got by on no credentials although the metadata holds credential keys. */
  predicate LivesOnEmptyLogin(env: Env, s: DataSource) {
    s.connection.credentials == map[] && FromMap(s.metadata) == None && env.allowEmpty(s.sourceType)
  }

  predicate Unread(env: Env, s: DataSource, store: SecretStore) {
    Trim(env.space, s.connection.secretRef) == "" || !ExistsByRef(store, s.connection.secretRef)
  }

  /** A promoted source whose secret holds its inline credentials resolves to them. */
  lemma PromotedResolution(env: Env, s: DataSource, store: SecretStore)
    requires Sane(env) && Inline(env, s).Some?
    requires var path := StorePath(EffectiveRef(env, s));
             path in store && store[path] == KeyValue(Inline(env, s).value)
    ensures Resolve(env, Promoted(env, s), Some(store)) == FromMap(Inline(env, s).value)
    ensures SameLogin(Resolve(env, Promoted(env, s), Some(store)),
                      FromMap(if s.connection.credentials != map[] then s.connection.credentials else s.metadata))
  {
    EffectiveRefVisible(env, s);
    FilterKeepsLogin(env, s.metadata);
  }

  /** The promotion finds a secret under its reference and takes it for its own. */
  predicate Reuses(env: Env, s: DataSource, store: SecretStore, o: StoreOutcome) {
    !o.checkFails && ExistsByRef(store, EffectiveRef(env, s))
  }

  /**
    Whether the login survives a promotion, from the source and the store before it: the secret that
    will be read, found or written, has to give the login the source has now.
  */
  predicate PromotionSafe(env: Env, s: DataSource, store: SecretStore, o: StoreOutcome)
    requires Inline(env, s).Some?
  {
    var reuses := Reuses(env, s, store, o);
    if !reuses && o.putFails then true
    else
      var secret := if reuses then FromSecret(GetByRef(store, EffectiveRef(env, s)).value) else FromMap(Inline(env, s).value);
      if s.connection.credentials != map[] then SameLogin(secret, FromMap(s.connection.credentials))
      else if Unread(env, s, store) then SameLogin(secret, Fallback(env, s))
      else SameLogin(secret, FromSecret(GetByRef(store, s.connection.secretRef).value))
  }

  /**
    For every source with inline credentials, every store and every outcome of the store calls: what
    the store holds afterwards, what the source resolves to, and exactly when its login survives.
  */
  lemma PromotionKeepsLoginIff(env: Env, s: DataSource, store: SecretStore, o: StoreOutcome)
    requires Sane(env) && Inline(env, s).Some?
    ensures var (s', store', promoted) := Promote(env, s, store, o);
            var after := Resolve(env, s', Some(store'));
            && (promoted <==> Reuses(env, s, store, o) || !o.putFails)
            && (Reuses(env, s, store, o) ==>
                  store' == store && after == FromSecret(GetByRef(store, EffectiveRef(env, s)).value))
            && (promoted && !Reuses(env, s, store, o) ==> after == FromMap(Inline(env, s).value))
            && (SameLogin(after, Resolve(env, s, Some(store))) <==> PromotionSafe(env, s, store, o))
  {
    EffectiveRefVisible(env, s);
    var (s', store', promoted) := Promote(env, s, store, o);
    if promoted && !Reuses(env, s, store, o) {
      PromotedResolution(env, s, store');
    }
  }

  /**
    A source that writes its secret, because there was none or because the check failed, keeps its
    login exactly when it did not live on the empty login: an unusable set of credential keys, once
    moved to the store, hides the fallback.
  */
  lemma FreshPromotionKeepsLoginIff(env: Env, s: DataSource, store: SecretStore, o: StoreOutcome)
    requires Sane(env) && Inline(env, s).Some? && !Reuses(env, s, store, o)
    requires s.connection.credentials != map[] || Unread(env, s, store)
    ensures var (s', store', promoted) := Promote(env, s, store, o);
            && promoted == !o.putFails
            && (SameLogin(Resolve(env, s', Some(store')), Resolve(env, s, Some(store)))
                <==> !promoted || !LivesOnEmptyLogin(env, s))
  {
    PromotionKeepsLoginIff(env, s, store, o);
    FilterKeepsLogin(env, s.metadata);
  }

  /** Resolving `other` would take the secret at `p`, if there were one. */
  predicate ReadsAt(env: Env, other: DataSource, store: SecretStore, p: string) {
    var ref := other.connection.secretRef;
    && other.connection.credentials == map[] && Trim(env.space, ref) != ""
    && (StorePath(ref) == p || (ref == p && StorePath(ref) !in store))
  }

  /**
    What the promotion of `s` does to any other record, for every store and every outcome of the store
    calls: the other record keeps its login exactly when nothing is written, or it does not read the
    written path, or the inline credentials of `s` give the login it has.
  */
  lemma BystanderKeepsLoginIff(env: Env, s: DataSource, other: DataSource, store: SecretStore, o: StoreOutcome)
    requires Inline(env, s).Some?
    ensures var (_, store', _) := Promote(env, s, store, o);
            var before := Resolve(env, other, Some(store));
            && (SameLogin(Resolve(env, other, Some(store')), before) <==>
                  || Reuses(env, s, store, o) || o.putFails
                  || !ReadsAt(env, other, store, StorePath(EffectiveRef(env, s)))
                  || SameLogin(FromMap(Inline(env, s).value), before))
  {
  }

  /** A failed existence check makes the promotion overwrite a secret that is there, for every reader of it. */
  lemma FailedCheckOverwrites(env: Env, s: DataSource, other: DataSource, store: SecretStore)
    requires Inline(env, s).Some? && ReadsAt(env, other, store, StorePath(EffectiveRef(env, s)))
    requires StorePath(EffectiveRef(env, s)) in store
    ensures var (_, store', promoted) := Promote(env, s, store, StoreOutcome(true, false));
            var p, creds := StorePath(EffectiveRef(env, s)), Inline(env, s).value;
            && promoted && store' == store[p := KeyValue(creds)]
            && Resolve(env, other, Some(store')) == FromMap(creds)
            && (SameLogin(Resolve(env, other, Some(store')), Resolve(env, other, Some(store))) <==>
                  SameLogin(FromMap(creds), FromSecret(store[p])))
  {
    BystanderKeepsLoginIff(env, s, other, store, StoreOutcome(true, false));
  }

  /** References that differ in their scheme only name one secret: a record that lived on the empty login gets a stranger's. */
  lemma SchemeAliasLeaksLogin(env: Env, s: DataSource, other: DataSource, path: string)
    requires Sane(env) && FromMap(s.connection.credentials).Some?
    requires EffectiveRef(env, s) == "vault://" + path
    requires other.connection.credentials == map[] && other.connection.secretRef == "aws://" + path
    requires Trim(env.space, other.connection.secretRef) != ""
    requires FromMap(other.metadata) == None && env.allowEmpty(other.sourceType)
    ensures var (_, store', promoted) := Promote(env, s, map[], StoreOutcome(false, false));
            && promoted
            && Resolve(env, other, Some(map[])) == Some(Creds("", "", map[]))
            && Resolve(env, other, Some(store')) == FromMap(s.connection.credentials)
  {
    StorePathDropsScheme(path);
  }

  /** An api key alone: the source resolved before its promotion and fails afterwards. */
  lemma ApiKeySourceStopsResolving(env: Env, s: DataSource, key: string)
    requires Sane(env) && env.allowEmpty(s.sourceType)
    requires s.connection.credentials == map[] && s.connection.secretRef == "" && s.metadata == map["api_key" := key]
    ensures var (s', store', promoted) := Promote(env, s, map[], StoreOutcome(false, false));
            promoted && Resolve(env, s, Some(map[])).Some? && Resolve(env, s', Some(store')).None?
  {
    assert "api_key" in CREDENTIAL_KEYS;
    assert "api_key" in FilterKeys(env, s.metadata);
    assert "username" != "api_key" && "user" != "api_key" && "access_key_id" != "api_key"
        && "token" != "api_key" && "access_token" != "api_key";
    assert FromMap(s.metadata) == None;
    FreshPromotionKeepsLoginIff(env, s, map[], StoreOutcome(false, false));
  }

  /** The login a source has while no secret is read for it. */
  function InlineLogin(env: Env, s: DataSource): Option<Creds> {
    if s.connection.credentials != map[] then FromMap(s.connection.credentials) else Fallback(env, s)
  }

  /**
    Two sources with the same effective reference, promoted one after the other into an unused
    secret: both end up with the first one's credentials, and the second keeps its login exactly when
    those give the login it had.
  */
  lemma SharedRefKeepsLoginIff(env: Env, a: DataSource, b: DataSource, store: SecretStore)
    requires Sane(env) && Inline(env, a).Some? && Inline(env, b).Some?
    requires EffectiveRef(env, a) == EffectiveRef(env, b) && !ExistsByRef(store, EffectiveRef(env, b))
    requires b.connection.credentials != map[] || Unread(env, b, store)
    ensures var (_, store1, _) := Promote(env, a, store, StoreOutcome(false, false));
            var (b', store2, promoted) := Promote(env, b, store1, StoreOutcome(false, false));
            && promoted && store2 == store1
            && Resolve(env, b', Some(store2)) == FromMap(Inline(env, a).value)
            && (SameLogin(Resolve(env, b', Some(store2)), Resolve(env, b, Some(store))) <==>
                  SameLogin(FromMap(Inline(env, a).value), InlineLogin(env, b)))
  {
    EffectiveRefVisible(env, b);
  }

  /** Two ids that end alike share a default reference, so two different logins become one. */
  lemma SharedSuffixMixesLogins(env: Env, a: DataSource, b: DataSource)
    requires Sane(env)
    requires AfterLastColon(a.id) == AfterLastColon(b.id)
    requires a.connection.secretRef == "" && b.connection.secretRef == ""
    requires a.connection.credentials != map[] && b.connection.credentials != map[]
    ensures var (_, store1, _) := Promote(env, a, map[], StoreOutcome(false, false));
            var (b', store2, promoted) := Promote(env, b, store1, StoreOutcome(false, false));
            && promoted && Resolve(env, b', Some(store2)) == FromMap(a.connection.credentials)
            && (SameLogin(Resolve(env, b', Some(store2)), Resolve(env, b, Some(map[]))) <==>
                  SameLogin(FromMap(a.connection.credentials), FromMap(b.connection.credentials)))
  {
    SharedRefKeepsLoginIff(env, a, b, map[]);
  }
}
