/**
  The embedding cache on values: a map of entries and a recency list, newest first.

  `Get`, `Put` and `Clear` are the operations under an already normalized key.  The invariant,
  the exact capacity for which it holds, and the behaviour under any sequence of operations are
  proved here; `EmbeddingCache` is the object that carries them out in place.
*/
module Lru {
  import opened Common

  datatype Cache<K, V> = Cache(entries: map<K, V>, recency: seq<K>, hits: nat, misses: nat)

  datatype Op<K, V> = GetOp(key: K) | PutOp(key: K, value: V) | ClearOp

  function Empty<K(==), V>(): Cache<K, V> {
    Cache(map[], [], 0, 0)
  }

  function RemoveFirst<K(==)>(s: seq<K>, k: K): seq<K> {
    if s == [] then [] else if s[0] == k then s[1..] else [s[0]] + RemoveFirst(s[1..], k)
  }

  function Take<K>(s: seq<K>, n: nat): seq<K> {
    if |s| <= n then s else s[..n]
  }

  function Touch<K(==)>(s: seq<K>, k: K, n: nat): seq<K> {
    Take([k] + RemoveFirst(s, k), n)
  }

  function Evict<K(==), V>(c: Cache<K, V>): Cache<K, V> {
    if c.recency == [] then c
    else
      var last := |c.recency| - 1;
      c.(entries := c.entries - {c.recency[last]}, recency := c.recency[..last])
  }

  function Get<K(==), V>(c: Cache<K, V>, k: K, n: nat): Cache<K, V> {
    if k in c.entries then c.(recency := Touch(c.recency, k, n), hits := c.hits + 1)
    else c.(misses := c.misses + 1)
  }

  function Found<K(==), V>(c: Cache<K, V>, k: K): Option<V> {
    if k in c.entries then Some(c.entries[k]) else None
  }

  function Put<K(==), V>(c: Cache<K, V>, k: K, v: V, n: nat): Cache<K, V> {
    Insert(if |c.entries| >= n && k !in c.entries then Evict(c) else c, k, v, n)
  }

  function Insert<K(==), V>(c: Cache<K, V>, k: K, v: V, n: nat): Cache<K, V> {
    c.(entries := c.entries[k := v], recency := Touch(c.recency, k, n))
  }

  function Apply<K(==), V>(c: Cache<K, V>, op: Op<K, V>, n: nat): Cache<K, V> {
    match op
    case GetOp(k) => Get(c, k, n)
    case PutOp(k, v) => Put(c, k, v, n)
    case ClearOp => Empty()
  }

  function Run<K(==), V>(ops: seq<Op<K, V>>, n: nat): Cache<K, V> {
    if ops == [] then Empty() else Apply(Run(ops[..|ops| - 1], n), ops[|ops| - 1], n)
  }

  // ----- recency lists -----

  ghost predicate NoDup<K>(s: seq<K>) {
    forall i, j :: 0 <= i < j < |s| ==> s[i] != s[j]
  }

  function Elements<K(==)>(s: seq<K>): set<K> {
    set x | x in s
  }

  lemma {:induction false} ElementsSize<K>(s: seq<K>)
    requires NoDup(s)
    ensures |Elements(s)| == |s|
  {
    if s != [] {
      ElementsSize(s[1..]);
      assert Elements(s) == Elements(s[1..]) + {s[0]};
      assert s[0] !in Elements(s[1..]);
    }
  }

  lemma ConsProps<K>(x: K, t: seq<K>)
    ensures Elements([x] + t) == {x} + Elements(t)
    ensures x in Elements(t) <==> x in t
    ensures NoDup([x] + t) <==> x !in t && NoDup(t)
  {
    var s := [x] + t;
    if x !in t && NoDup(t) {
      forall i, j | 0 <= i < j < |s| ensures s[i] != s[j] {
        assert s[j] == t[j - 1];
      }
    }
    if NoDup(s) {
      forall j | 0 <= j < |t| ensures t[j] != x && forall i :: 0 <= i < j ==> t[i] != t[j] {
        assert t[j] == s[j + 1] && s[0] == x;
        forall i | 0 <= i < j ensures t[i] != t[j] { assert t[i] == s[i + 1]; }
      }
    }
  }

  lemma {:induction false} RemoveFirstProps<K>(s: seq<K>, k: K)
    requires NoDup(s)
    ensures NoDup(RemoveFirst(s, k))
    ensures Elements(RemoveFirst(s, k)) == Elements(s) - {k}
    ensures |RemoveFirst(s, k)| == if k in s then |s| - 1 else |s|
    ensures k !in s ==> RemoveFirst(s, k) == s
  {
    if s != [] {
      assert s == [s[0]] + s[1..];
      ConsProps(s[0], s[1..]);
      RemoveFirstProps(s[1..], k);
      ConsProps(s[0], RemoveFirst(s[1..], k));
    }
  }

  lemma TouchProps<K>(s: seq<K>, k: K, n: nat)
    requires NoDup(s)
    ensures NoDup(Touch(s, k, n)) && |Touch(s, k, n)| <= n
    ensures |s| < n || (|s| == n && k in s) ==>
              Touch(s, k, n) == [k] + RemoveFirst(s, k) && Elements(Touch(s, k, n)) == Elements(s) + {k}
  {
    RemoveFirstProps(s, k);
    ConsProps(k, RemoveFirst(s, k));
  }

  // ----- the invariant -----

  /** List and map agree, the list has no duplicates, and the size is within the capacity. */
  ghost predicate Inv<K, V>(c: Cache<K, V>, n: nat) {
    NoDup(c.recency) && Elements(c.recency) == c.entries.Keys && |c.recency| <= n
  }

  lemma InvSize<K, V>(c: Cache<K, V>, n: nat)
    requires Inv(c, n)
    ensures |c.entries| == |c.recency| && |c.entries| <= n
    ensures forall k :: k in c.entries <==> k in c.recency
  {
    ElementsSize(c.recency);
    assert |c.entries| == |c.entries.Keys|;
    forall k ensures k in c.entries <==> k in c.recency {
      assert k in Elements(c.recency) <==> k in c.recency;
    }
  }

  lemma EvictProps<K, V>(c: Cache<K, V>, n: nat)
    requires Inv(c, n) && c.recency != []
    ensures Inv(Evict(c), n) && |Evict(c).recency| < n
    ensures Evict(c).recency == c.recency[..|c.recency| - 1]
  {
    var last := |c.recency| - 1;
    var d := Evict(c);
    assert c.recency == d.recency + [c.recency[last]];
    assert Elements(c.recency) == Elements(d.recency) + {c.recency[last]};
    assert c.recency[last] !in Elements(d.recency);
  }

  /** What `Put` does to a well-formed cache: the key moves to the front, and a full cache drops its last key. */
  lemma PutProps<K, V>(c: Cache<K, V>, k: K, v: V, n: nat)
    requires Inv(c, n) && n >= 1
    ensures Inv(Put(c, k, v, n), n)
    ensures var full := |c.recency| == n && k !in c.recency;
            Put(c, k, v, n).recency ==
              [k] + (if full then c.recency[..n - 1] else RemoveFirst(c.recency, k))
    ensures k in Put(c, k, v, n).entries && Put(c, k, v, n).entries[k] == v
    ensures forall j :: j in Put(c, k, v, n).entries && j != k ==>
              j in c.entries && Put(c, k, v, n).entries[j] == c.entries[j]
  {
    InvSize(c, n);
    var full := |c.recency| == n && k !in c.recency;
    if full {
      EvictProps(c, n);
      var d := Evict(c);
      InvSize(d, n);
      assert k !in d.recency;
      RemoveFirstProps(d.recency, k);
      InsertProps(d, k, v, n);
    } else {
      InsertProps(c, k, v, n);
    }
  }

  lemma InsertProps<K, V>(c: Cache<K, V>, k: K, v: V, n: nat)
    requires Inv(c, n)
    requires |c.recency| < n || k in c.recency
    ensures Inv(Insert(c, k, v, n), n)
    ensures Insert(c, k, v, n).recency == [k] + RemoveFirst(c.recency, k)
  {
    TouchProps(c.recency, k, n);
  }

  lemma GetProps<K, V>(c: Cache<K, V>, k: K, n: nat)
    requires Inv(c, n)
    ensures Inv(Get(c, k, n), n) && Get(c, k, n).entries == c.entries
    ensures Get(c, k, n).recency ==
              if k in c.recency then [k] + RemoveFirst(c.recency, k) else c.recency
  {
    InvSize(c, n);
    if k in c.entries {
      TouchProps(c.recency, k, n);
    }
  }

  lemma {:induction false} RunKeepsInv<K, V>(ops: seq<Op<K, V>>, n: nat)
    requires n >= 1
    ensures Inv(Run(ops, n), n)
  {
    if ops != [] {
      var before := Run(ops[..|ops| - 1], n);
      RunKeepsInv(ops[..|ops| - 1], n);
      match ops[|ops| - 1] {
        case GetOp(k) => GetProps(before, k, n);
        case PutOp(k, v) => PutProps(before, k, v, n);
        case ClearOp =>
      }
    }
  }

  // ----- what a run answers and counts -----

  /** The value last put under `k` since the last clear. */
  function LastPut<K(==), V>(ops: seq<Op<K, V>>, k: K): Option<V> {
    if ops == [] then None
    else match ops[|ops| - 1]
      case PutOp(j, v) => if j == k then Some(v) else LastPut(ops[..|ops| - 1], k)
      case GetOp(_) => LastPut(ops[..|ops| - 1], k)
      case ClearOp => None
  }

  /** Whatever the capacity, a lookup that finds something finds the value last put under its key. */
  lemma {:induction false} FoundIsLastPut<K, V>(ops: seq<Op<K, V>>, k: K, n: nat)
    ensures Found(Run(ops, n), k).Some? ==> Found(Run(ops, n), k) == LastPut(ops, k)
  {
    if ops != [] {
      FoundIsLastPut(ops[..|ops| - 1], k, n);
    }
  }

  /** With room for one entry at least, the value just put is found. */
  lemma PutIsFound<K, V>(ops: seq<Op<K, V>>, k: K, v: V, n: nat)
    requires n >= 1
    ensures Found(Run(ops + [PutOp(k, v)], n), k) == Some(v)
  {
    var all := ops + [PutOp(k, v)];
    assert all[..|ops|] == ops;
    RunKeepsInv(ops, n);
    PutProps(Run(ops, n), k, v, n);
  }

  /** Operation `i` is a lookup that is (or is not) answered in the state it meets. */
  ghost predicate LooksUp<K, V>(ops: seq<Op<K, V>>, n: nat, i: nat, answered: bool) {
    i < |ops| && ops[i].GetOp? && Found(Run(ops[..i], n), ops[i].key).Some? == answered
  }

  ghost predicate SinceClear<K, V>(ops: seq<Op<K, V>>, i: nat) {
    forall j :: i <= j < |ops| ==> !ops[j].ClearOp?
  }

  /** The lookups since the last clear that were (or were not) answered. */
  ghost function Lookups<K, V>(ops: seq<Op<K, V>>, n: nat, answered: bool): set<nat> {
    set i | 0 <= i < |ops| && LooksUp(ops, n, i, answered) && SinceClear(ops, i)
  }

  lemma LookupsStep<K, V>(ops: seq<Op<K, V>>, op: Op<K, V>, n: nat, answered: bool)
    ensures Lookups(ops + [op], n, answered) ==
              (if op.ClearOp? then {} else Lookups(ops, n, answered)) +
              (if op.GetOp? && Found(Run(ops, n), op.key).Some? == answered then {|ops|} else {})
  {
    var all := ops + [op];
    assert all[|ops|] == op && all[..|ops|] == ops;
    forall i | 0 <= i < |ops|
      ensures LooksUp(all, n, i, answered) <==> LooksUp(ops, n, i, answered)
      ensures SinceClear(all, i) <==> SinceClear(ops, i) && !op.ClearOp?
    {
      assert all[i] == ops[i] && all[..i] == ops[..i];
      SinceClearStep(ops, op, i);
    }
    assert SinceClear(all, |ops|) <==> !op.ClearOp?;
  }

  lemma SinceClearStep<K, V>(ops: seq<Op<K, V>>, op: Op<K, V>, i: nat)
    requires i < |ops|
    ensures SinceClear(ops + [op], i) <==> SinceClear(ops, i) && !op.ClearOp?
  {
    var all := ops + [op];
    assert all[|ops|] == op;
    if SinceClear(all, i) {
      forall j | i <= j < |ops| ensures !ops[j].ClearOp? { assert all[j] == ops[j]; }
    }
  }

  /**
    The counters count: after any trace `hits` is the number of lookups since the last clear that
    found their key in the state they met, and `misses` the number of those that did not.
  */
  lemma {:induction false} CountersCount<K, V>(ops: seq<Op<K, V>>, n: nat)
    ensures Run(ops, n).hits == |Lookups(ops, n, true)| && Run(ops, n).misses == |Lookups(ops, n, false)|
  {
    if ops != [] {
      var before, op := ops[..|ops| - 1], ops[|ops| - 1];
      assert ops == before + [op];
      CountersCount(before, n);
      LookupsStep(before, op, n, true);
      LookupsStep(before, op, n, false);
      assert |before| !in Lookups(before, n, true) && |before| !in Lookups(before, n, false);
    }
  }

  /** With capacity 0 a single put leaves an entry the recency list does not know. */
  lemma ZeroCapacityOverflows<K, V>(k: K, v: V)
    ensures var c := Run([PutOp(k, v)], 0);
            c.entries == map[k := v] && c.recency == [] && !Inv(c, 0)
  {
    var ops := [PutOp(k, v)];
    assert ops[..0] == [];
    var c := Run(ops, 0);
    assert Run(ops[..0], 0) == Empty<K, V>();
    assert c == Put(Empty(), k, v, 0);
    assert k in c.entries.Keys && k !in Elements(c.recency);
  }

  /** The invariant holds after every sequence of operations exactly when the capacity is at least 1. */
  lemma InvariantIffPositiveCapacity<K(!new), V(!new)>(n: nat, someKey: K, someValue: V)
    ensures (forall ops: seq<Op<K, V>> :: Inv(Run(ops, n), n)) <==> n >= 1
  {
    if n >= 1 {
      forall ops: seq<Op<K, V>> ensures Inv(Run(ops, n), n) { RunKeepsInv(ops, n); }
    } else {
      ZeroCapacityOverflows(someKey, someValue);
    }
  }
}
