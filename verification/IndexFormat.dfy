/**
  The two on-disk formats of an inverted index, and the rewriting that takes one to the other.

  An old-format entry maps a key to a serialized set of event ids.  A new-format entry has the
  composite key `key|id` and an empty value.  `LogicalIds` is the format-independent meaning of a
  column family; `Rewrite` is what migrating a set of old keys does to it.
*/
module IndexFormat {
  import opened Common

  newtype Byte = b: int | 0 <= b < 256
  type Bytes = seq<Byte>
  type Family = map<Bytes, Bytes>

  /** Deserialization of an old-format value; None stands for a deserialization error. */
  type Decoder = Bytes -> Option<set<Bytes>>

  const SEPARATOR: Byte := 124

  function Composite(key: Bytes, id: Bytes): Bytes {
    key + [SEPARATOR] + id
  }

  /** Splits a stored key at its first separator. */
  function Split(c: Bytes): Option<(Bytes, Bytes)> {
    if c == [] then None
    else if c[0] == SEPARATOR then Some(([], c[1..]))
    else match Split(c[1..])
      case None => None
      case Some(parts) => Some(([c[0]] + parts.0, parts.1))
  }

  lemma {:induction false} SplitComposite(key: Bytes, id: Bytes)
    requires SEPARATOR !in key
    ensures Split(Composite(key, id)) == Some((key, id))
  {
    var c := Composite(key, id);
    if key == [] {
      assert c[1..] == id;
    } else {
      assert c[1..] == Composite(key[1..], id);
      SplitComposite(key[1..], id);
      assert key == [key[0]] + key[1..];
    }
  }

  /** A stored key splits into `key` and `id` exactly when it is `key`, a first '|', and `id`. */
  lemma SplitMeaning(c: Bytes, key: Bytes, id: Bytes)
    ensures Split(c) == Some((key, id)) <==> 124 !in key && c == key + [124] + id
  {
    SplitDefined(c);
    if SEPARATOR !in key {
      SplitComposite(key, id);
    }
  }

  lemma {:induction false} SplitDefined(c: Bytes)
    ensures Split(c).Some? <==> SEPARATOR in c
    ensures Split(c).Some? ==>
              var (key, id) := Split(c).value; SEPARATOR !in key && c == Composite(key, id)
  {
    if c != [] {
      SplitDefined(c[1..]);
      assert c == [c[0]] + c[1..];
    }
  }

  /** Distinct (key, id) pairs get distinct composite keys, and none of them is separator-free. */
  lemma CompositeInjective(k: Bytes, id: Bytes, k': Bytes, id': Bytes)
    requires SEPARATOR !in k && SEPARATOR !in k'
    ensures Composite(k, id) == Composite(k', id') <==> k == k' && id == id'
    ensures SEPARATOR in Composite(k, id)
  {
    SplitComposite(k, id);
    SplitComposite(k', id');
    assert Composite(k, id)[|k|] == SEPARATOR;
  }

  /** The entries the migration rewrites: non-empty value, separator-free key, decodable. */
  predicate OldEntry(decode: Decoder, f: Family, k: Bytes) {
    k in f && f[k] != [] && SEPARATOR !in k && decode(f[k]).Some?
  }

  function OldKeys(decode: Decoder, f: Family): set<Bytes> {
    set k | k in f && OldEntry(decode, f, k)
  }

  function OldIds(decode: Decoder, f: Family, k: Bytes): set<Bytes> {
    if OldEntry(decode, f, k) then decode(f[k]).value else {}
  }

  predicate IsCompositeOf(c: Bytes, k: Bytes) {
    Split(c).Some? && Split(c).value.0 == k
  }

  /** What a reader of the new format finds under `k`. */
  function CompositeIds(f: Family, k: Bytes): set<Bytes> {
    set c | c in f && IsCompositeOf(c, k) :: Split(c).value.1
  }

  /** The meaning of a family: the event ids indexed under `k`, in either format. */
  function LogicalIds(decode: Decoder, f: Family, k: Bytes): set<Bytes> {
    OldIds(decode, f, k) + CompositeIds(f, k)
  }

  /** The composite keys that replace the old entries `ks`. */
  function Composites(decode: Decoder, f: Family, ks: set<Bytes>): set<Bytes> {
    set k, id | k in ks && id in OldIds(decode, f, k) :: Composite(k, id)
  }

  /** `f` with an empty value under every key of `cs`. */
  function WithEmpty(f: Family, cs: set<Bytes>): Family {
    map c | c in f.Keys + cs :: if c in cs then [] else f[c]
  }

  function Rewrite(decode: Decoder, f: Family, ks: set<Bytes>): Family {
    WithEmpty(f - ks, Composites(decode, f, ks))
  }

  lemma CompositesHaveSeparator(decode: Decoder, f: Family, ks: set<Bytes>)
    ensures forall c :: c in Composites(decode, f, ks) ==> SEPARATOR in c
  {
    forall c | c in Composites(decode, f, ks) ensures SEPARATOR in c {
      var k, id :| k in ks && id in OldIds(decode, f, k) && c == Composite(k, id);
      assert c[|k|] == SEPARATOR;
    }
  }

  /** Rewriting removes exactly the rewritten old entries and leaves the other old entries as they were. */
  lemma RewriteOldKeys(decode: Decoder, f: Family, ks: set<Bytes>)
    ensures OldKeys(decode, Rewrite(decode, f, ks)) == OldKeys(decode, f) - ks
    ensures forall k :: k !in ks ==> OldIds(decode, Rewrite(decode, f, ks), k) == OldIds(decode, f, k)
  {
    CompositesHaveSeparator(decode, f, ks);
  }

  lemma CompositeIdsContains(f: Family, k: Bytes, id: Bytes)
    requires SEPARATOR !in k
    ensures id in CompositeIds(f, k) <==> Composite(k, id) in f
  {
    SplitComposite(k, id);
    if Composite(k, id) in f {
      assert IsCompositeOf(Composite(k, id), k);
    }
    if id in CompositeIds(f, k) {
      var c :| c in f && IsCompositeOf(c, k) && Split(c).value.1 == id;
      SplitDefined(c);
    }
  }

  lemma CompositesContains(decode: Decoder, f: Family, ks: set<Bytes>, k: Bytes, id: Bytes)
    requires SEPARATOR !in k
    ensures Composite(k, id) in Composites(decode, f, ks) <==> k in ks && id in OldIds(decode, f, k)
  {
    if Composite(k, id) in Composites(decode, f, ks) {
      var k', id' :| k' in ks && id' in OldIds(decode, f, k') && Composite(k, id) == Composite(k', id');
      CompositeInjective(k, id, k', id');
    }
  }

  /** Rewriting any set of old entries leaves the meaning of every separator-free key unchanged. */
  lemma RewritePreservesMeaning(decode: Decoder, f: Family, ks: set<Bytes>, k: Bytes)
    requires ks <= OldKeys(decode, f)
    requires SEPARATOR !in k
    ensures LogicalIds(decode, Rewrite(decode, f, ks), k) == LogicalIds(decode, f, k)
  {
    var g := Rewrite(decode, f, ks);
    RewriteOldKeys(decode, f, ks);
    forall id ensures id in LogicalIds(decode, g, k) <==> id in LogicalIds(decode, f, k) {
      CompositeIdsContains(f, k, id);
      CompositeIdsContains(g, k, id);
      CompositesContains(decode, f, ks, k, id);
      CompositeInjective(k, id, k, id);
      assert Composite(k, id) !in ks;
      if k in ks {
        assert k !in g by { CompositesHaveSeparator(decode, f, ks); }
      }
    }
  }

  /**
    An entry whose key contains the separator is never migrated, yet a migrated entry can overwrite
    it: the entry under `k|id` keeps its value exactly when that is empty already, or `k` is not
    rewritten, or `k` does not hold `id`.
  */
  lemma SeparatorEntryKeptIff(decode: Decoder, f: Family, ks: set<Bytes>, k: Bytes, id: Bytes)
    requires ks <= OldKeys(decode, f) && SEPARATOR !in k && Composite(k, id) in f
    ensures var c, g := Composite(k, id), Rewrite(decode, f, ks);
            c in g && (g[c] == f[c] <==> f[c] == [] || k !in ks || id !in OldIds(decode, f, k))
  {
    CompositesContains(decode, f, ks, k, id);
    CompositeInjective(k, id, k, id);
    assert Composite(k, id) !in ks;
  }

  /** A non-empty value under a key without '|' that decodes to these ids. */
  ghost predicate Indexes(decode: Decoder, f: Family, k: Bytes, ids: set<Bytes>) {
    k in f && 124 !in k && f[k] != [] && decode(f[k]) == Some(ids)
  }

  /**
    `g` is `f` converted, entry by entry: an indexing entry is gone and `key|id` is there, empty, for
    each of its ids; any other entry is there, with its value or as such an empty one; and there is
    nothing else.
  */
  ghost predicate Converted(decode: Decoder, f: Family, g: Family) {
    && (forall k, ids :: Indexes(decode, f, k, ids) ==>
          k !in g && forall id :: id in ids ==> k + [124] + id in g && g[k + [124] + id] == [])
    && (forall c :: c in f && (forall ids :: !Indexes(decode, f, c, ids)) ==> c in g)
    && (forall c :: c in g ==> (c in f && g[c] == f[c]) || Introduced(decode, f, g, c))
  }

  ghost predicate Introduced(decode: Decoder, f: Family, g: Family, c: Bytes)
    requires c in g
  {
    g[c] == [] && exists k, ids, id :: Indexes(decode, f, k, ids) && id in ids && c == k + [124] + id
  }

  /** Rewriting all old entries converts the family. */
  lemma RewriteConverts(decode: Decoder, f: Family)
    ensures Converted(decode, f, Rewrite(decode, f, OldKeys(decode, f)))
  {
    var ks := OldKeys(decode, f);
    var g := Rewrite(decode, f, ks);
    CompositesHaveSeparator(decode, f, ks);
    forall k, ids | Indexes(decode, f, k, ids)
      ensures k !in g && forall id :: id in ids ==> k + [124] + id in g && g[k + [124] + id] == []
    {
      assert k in ks;
      forall id | id in ids ensures k + [124] + id in g && g[k + [124] + id] == [] {
        assert Composite(k, id) in Composites(decode, f, ks);
      }
    }
    forall c | c in f && forall ids :: !Indexes(decode, f, c, ids) ensures c in g {
      if c in ks {
        assert Indexes(decode, f, c, decode(f[c]).value);
      }
    }
    forall c | c in g && !(c in f && g[c] == f[c]) ensures Introduced(decode, f, g, c) {
      var k, id :| k in ks && id in OldIds(decode, f, k) && c == Composite(k, id);
      assert Indexes(decode, f, k, decode(f[k]).value);
    }
  }

  /** Rewriting in two installments is rewriting once. */
  lemma RewriteCompose(decode: Decoder, f: Family, a: set<Bytes>, b: set<Bytes>)
    requires a <= OldKeys(decode, f) && b <= OldKeys(decode, f) - a
    ensures Rewrite(decode, Rewrite(decode, f, a), b) == Rewrite(decode, f, a + b)
  {
    var g := Rewrite(decode, f, a);
    RewriteOldKeys(decode, f, a);
    CompositesHaveSeparator(decode, f, a);
    CompositesUnion(decode, f, g, a, b);
    WithEmptyCompose(f - a, Composites(decode, f, a), b, Composites(decode, g, b));
    assert f - a - b == f - (a + b);
  }

  lemma CompositesUnion(decode: Decoder, f: Family, g: Family, a: set<Bytes>, b: set<Bytes>)
    requires forall k :: k in b ==> OldIds(decode, g, k) == OldIds(decode, f, k)
    ensures Composites(decode, f, a + b) == Composites(decode, f, a) + Composites(decode, g, b)
  {
  }

  lemma WithEmptyCompose(f: Family, cs: set<Bytes>, b: set<Bytes>, ds: set<Bytes>)
    requires cs !! b
    ensures WithEmpty(WithEmpty(f, cs) - b, ds) == WithEmpty(f - b, cs + ds)
  {
  }

  lemma RewriteNothing(decode: Decoder, f: Family)
    ensures Rewrite(decode, f, {}) == f
  {
    assert Composites(decode, f, {}) == {};
  }
}
