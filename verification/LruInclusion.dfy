/**
  LRU inclusion: on the same trace, a smaller cache never knows anything a larger one does not,
  although a missed lookup inserts nothing and so moves keys in one cache only.
*/
module LruInclusion {
  import opened Lru

  ghost predicate Subseq<K>(s: seq<K>, l: seq<K>) {
    s == [] ||
    (l != [] && ((s[0] == l[0] && Subseq(s[1..], l[1..])) || Subseq(s, l[1..])))
  }

  lemma {:induction false} SubseqRefl<K>(s: seq<K>)
    ensures Subseq(s, s)
  {
    if s != [] {
      SubseqRefl(s[1..]);
    }
  }

  lemma SubseqCons<K>(x: K, s: seq<K>, l: seq<K>)
    requires Subseq(s, l)
    ensures Subseq([x] + s, [x] + l) && Subseq(s, [x] + l)
  {
    assert ([x] + s)[1..] == s && ([x] + l)[1..] == l;
  }

  lemma {:induction false} SubseqIn<K>(s: seq<K>, l: seq<K>, x: K)
    requires Subseq(s, l) && x in s
    ensures x in l
  {
    if s[0] == l[0] && Subseq(s[1..], l[1..]) {
      if x != s[0] {
        SubseqIn(s[1..], l[1..], x);
      }
    } else {
      SubseqIn(s, l[1..], x);
    }
  }

  lemma {:induction false} SubseqRemove<K>(s: seq<K>, l: seq<K>, k: K)
    requires NoDup(l) && Subseq(s, l)
    ensures Subseq(RemoveFirst(s, k), RemoveFirst(l, k))
  {
    if s != [] {
      if s[0] == l[0] && Subseq(s[1..], l[1..]) {
        if s[0] != k {
          SubseqRemove(s[1..], l[1..], k);
          SubseqCons(s[0], RemoveFirst(s[1..], k), RemoveFirst(l[1..], k));
        }
      } else if l[0] == k {
        if k in s {
          SubseqIn(s, l[1..], k);
        }
        RemoveFirstAbsent(s, k);
      } else {
        SubseqRemove(s, l[1..], k);
        SubseqCons(l[0], RemoveFirst(s, k), RemoveFirst(l[1..], k));
      }
    }
  }

  lemma {:induction false} RemoveFirstAbsent<K>(s: seq<K>, k: K)
    requires k !in s
    ensures RemoveFirst(s, k) == s
  {
    if s != [] {
      RemoveFirstAbsent(s[1..], k);
    }
  }

  function Init<K>(s: seq<K>): seq<K>
    requires s != []
  {
    s[..|s| - 1]
  }

  lemma InitTail<K>(s: seq<K>)
    requires |s| > 1
    ensures Init(s)[1..] == Init(s[1..]) && Init(s) == [s[0]] + Init(s[1..])
  {
  }

  lemma {:induction false} SubseqInit<K>(s: seq<K>, l: seq<K>)
    requires s != [] && Subseq(s, l)
    ensures Subseq(Init(s), l)
  {
    if |s| > 1 {
      if s[0] == l[0] && Subseq(s[1..], l[1..]) {
        SubseqInit(s[1..], l[1..]);
        InitTail(s);
      } else {
        SubseqInit(s, l[1..]);
      }
    }
  }

  lemma {:induction false} SubseqBothInit<K>(s: seq<K>, l: seq<K>)
    requires s != [] && Subseq(s, l)
    ensures Subseq(Init(s), Init(l))
  {
    if |s| > 1 {
      InitTail(s);
      if s[0] == l[0] && Subseq(s[1..], l[1..]) {
        SubseqBothInit(s[1..], l[1..]);
        InitTail(l);
      } else {
        SubseqBothInit(s, l[1..]);
        InitTail(l);
        SubseqCons(l[0], Init(s), Init(l[1..]));
      }
    }
  }

  /**
    `s`, at capacity `m`, is included in `l`: its recency list is a subsequence, its entries are
    entries of `l` with the same values, it has hit no more often, and until it first fills up the
    two lists are equal.
  */
  ghost predicate Included<K, V>(s: Cache<K, V>, l: Cache<K, V>, m: nat) {
    && Subseq(s.recency, l.recency)
    && (|s.recency| < m ==> s.recency == l.recency)
    && (forall k :: k in s.entries ==> k in l.entries && l.entries[k] == s.entries[k])
    && s.hits <= l.hits
    && s.hits + s.misses == l.hits + l.misses
  }

  lemma GetIncluded<K, V>(s: Cache<K, V>, l: Cache<K, V>, k: K, m: nat, n: nat)
    requires Inv(s, m) && Inv(l, n) && Included(s, l, m)
    ensures Included(Get(s, k, m), Get(l, k, n), m)
  {
    InvSize(s, m);
    InvSize(l, n);
    GetProps(s, k, m);
    GetProps(l, k, n);
    RemoveFirstProps(s.recency, k);
    SubseqRemove(s.recency, l.recency, k);
    SubseqCons(k, RemoveFirst(s.recency, k), RemoveFirst(l.recency, k));
  }

  /** The recency lists after a put. */
  lemma PutRecencyIncluded<K, V>(s: Cache<K, V>, l: Cache<K, V>, k: K, v: V, m: nat, n: nat)
    requires 1 <= m <= n
    requires Inv(s, m) && Inv(l, n) && Included(s, l, m)
    ensures var s', l' := Put(s, k, v, m).recency, Put(l, k, v, n).recency;
            Subseq(s', l') && (|s'| < m ==> s' == l')
  {
    PutProps(s, k, v, m);
    PutProps(l, k, v, n);
    RemoveFirstProps(s.recency, k);
    RemoveFirstProps(l.recency, k);
    SubseqRemove(s.recency, l.recency, k);
    if |s.recency| < m {
      assert s.recency == l.recency;
      SubseqRefl(Put(s, k, v, m).recency);
    } else if k in s.recency {
      SubseqIn(s.recency, l.recency, k);
      SubseqCons(k, RemoveFirst(s.recency, k), RemoveFirst(l.recency, k));
    } else if |l.recency| == n && k !in l.recency {
      SubseqBothInit(s.recency, l.recency);
      SubseqCons(k, Init(s.recency), Init(l.recency));
    } else {
      SubseqInit(s.recency, RemoveFirst(l.recency, k));
      SubseqCons(k, Init(s.recency), RemoveFirst(l.recency, k));
    }
  }

  lemma PutIncluded<K, V>(s: Cache<K, V>, l: Cache<K, V>, k: K, v: V, m: nat, n: nat)
    requires 1 <= m <= n
    requires Inv(s, m) && Inv(l, n) && Included(s, l, m)
    ensures Included(Put(s, k, v, m), Put(l, k, v, n), m)
  {
    var s', l' := Put(s, k, v, m), Put(l, k, v, n);
    PutRecencyIncluded(s, l, k, v, m, n);
    PutProps(s, k, v, m);
    PutProps(l, k, v, n);
    InvSize(s', m);
    InvSize(l', n);
    forall j | j in s'.entries ensures j in l'.entries && l'.entries[j] == s'.entries[j] {
      SubseqIn(s'.recency, l'.recency, j);
    }
  }

  /** After any trace, the cache of capacity `m` is included in the one of capacity `n >= m >= 1`. */
  lemma {:induction false} Inclusion<K, V>(ops: seq<Op<K, V>>, m: nat, n: nat)
    requires 1 <= m <= n
    ensures Included(Run(ops, m), Run(ops, n), m)
  {
    if ops != [] {
      var before := ops[..|ops| - 1];
      var s, l := Run(before, m), Run(before, n);
      Inclusion(before, m, n);
      RunKeepsInv(before, m);
      RunKeepsInv(before, n);
      match ops[|ops| - 1] {
        case GetOp(k) => GetIncluded(s, l, k, m, n);
        case PutOp(k, v) => PutIncluded(s, l, k, v, m, n);
        case ClearOp =>
      }
    }
  }

  /** Every lookup the smaller cache answers, the larger one answers with the same value. */
  lemma HitsAreIncluded<K, V>(ops: seq<Op<K, V>>, k: K, m: nat, n: nat)
    requires 1 <= m <= n
    ensures Found(Run(ops, m), k).Some? ==> Found(Run(ops, n), k) == Found(Run(ops, m), k)
    ensures Run(ops, m).hits <= Run(ops, n).hits
  {
    Inclusion(ops, m, n);
  }
}
