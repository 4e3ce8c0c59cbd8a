/** The streaming deduplicator: one pass that keeps the first row of each key. */
module Deduplicator {
  import opened Common

  function KeysOf<R, K>(rows: seq<R>, key: R -> K): set<K> {
    set i | 0 <= i < |rows| :: key(rows[i])
  }

  /** The rows whose key did not occur before them. */
  function Dedup<R, K(==)>(rows: seq<R>, key: R -> K): seq<R> {
    if rows == [] then []
    else
      var before, row := rows[..|rows| - 1], rows[|rows| - 1];
      if key(row) in KeysOf(before, key) then Dedup(before, key) else Dedup(before, key) + [row]
  }

  lemma KeysAppend<R, K>(rows: seq<R>, row: R, key: R -> K)
    ensures KeysOf(rows + [row], key) == KeysOf(rows, key) + {key(row)}
  {
    var all := rows + [row];
    assert all[|rows|] == row;
    forall k | k in KeysOf(rows, key) ensures k in KeysOf(all, key) {
      var i :| 0 <= i < |rows| && key(rows[i]) == k;
      assert all[i] == rows[i];
    }
  }

  lemma DedupAppend<R, K>(rows: seq<R>, row: R, key: R -> K)
    ensures Dedup(rows + [row], key) ==
              if key(row) in KeysOf(rows, key) then Dedup(rows, key) else Dedup(rows, key) + [row]
  {
    assert (rows + [row])[..|rows|] == rows;
  }

  // ----- which rows are kept -----

  ghost predicate IsFirst<R, K>(rows: seq<R>, key: R -> K, i: nat) {
    i < |rows| && forall j :: 0 <= j < i ==> key(rows[j]) != key(rows[i])
  }

  /** The positions of the first row of each key, in order. */
  ghost function Firsts<R, K>(rows: seq<R>, key: R -> K, n: nat): seq<nat>
    requires n <= |rows|
  {
    if n == 0 then [] else Firsts(rows, key, n - 1) + if IsFirst(rows, key, n - 1) then [n - 1] else []
  }

  lemma {:induction false} FirstsMeaning<R, K>(rows: seq<R>, key: R -> K, n: nat)
    requires n <= |rows|
    ensures var f := Firsts(rows, key, n);
            && (forall a, b :: 0 <= a < b < |f| ==> f[a] < f[b])
            && (forall i :: i in f <==> 0 <= i < n && IsFirst(rows, key, i))
  {
    if n > 0 {
      FirstsMeaning(rows, key, n - 1);
      var f := Firsts(rows, key, n - 1);
      assert forall a :: 0 <= a < |f| ==> f[a] in f;
    }
  }

  /** The rows at the given positions. */
  ghost function At<R>(rows: seq<R>, f: seq<nat>): seq<R>
    requires forall a :: 0 <= a < |f| ==> f[a] < |rows|
  {
    seq(|f|, a requires 0 <= a < |f| => rows[f[a]])
  }

  lemma FirstIsNewKey<R, K>(rows: seq<R>, key: R -> K, i: nat)
    requires i < |rows|
    ensures IsFirst(rows, key, i) <==> key(rows[i]) !in KeysOf(rows[..i], key)
  {
    forall j | 0 <= j < i ensures key(rows[j]) in KeysOf(rows[..i], key) {
      assert rows[..i][j] == rows[j];
    }
  }

  lemma FirstsInRange<R, K>(rows: seq<R>, key: R -> K, n: nat)
    requires n <= |rows|
    ensures var f := Firsts(rows, key, n); forall a :: 0 <= a < |f| ==> f[a] < |rows|
  {
    FirstsMeaning(rows, key, n);
    var f := Firsts(rows, key, n);
    assert forall a :: 0 <= a < |f| ==> f[a] in f;
  }

  /** The result is the stable subsequence that holds exactly the first row of each key. */
  lemma {:induction false} DedupKeepsFirsts<R, K>(rows: seq<R>, key: R -> K, n: nat)
    requires n <= |rows|
    ensures var f := Firsts(rows, key, n);
            && (forall a :: 0 <= a < |f| ==> f[a] < |rows|)
            && Dedup(rows[..n], key) == At(rows, f)
  {
    FirstsInRange(rows, key, n);
    if n > 0 {
      FirstsInRange(rows, key, n - 1);
      DedupKeepsFirsts(rows, key, n - 1);
      assert rows[..n] == rows[..n - 1] + [rows[n - 1]];
      DedupAppend(rows[..n - 1], rows[n - 1], key);
      FirstIsNewKey(rows, key, n - 1);
    }
  }

  // ----- algebra -----

  lemma {:induction false} DedupKeys<R, K>(rows: seq<R>, key: R -> K)
    ensures KeysOf(Dedup(rows, key), key) == KeysOf(rows, key)
  {
    if rows != [] {
      var before, row := rows[..|rows| - 1], rows[|rows| - 1];
      assert rows == before + [row];
      DedupKeys(before, key);
      KeysAppend(before, row, key);
      KeysAppend(Dedup(before, key), row, key);
    }
  }

  lemma {:induction false} DedupIdempotent<R, K>(rows: seq<R>, key: R -> K)
    ensures Dedup(Dedup(rows, key), key) == Dedup(rows, key)
  {
    if rows != [] {
      var before, row := rows[..|rows| - 1], rows[|rows| - 1];
      DedupIdempotent(before, key);
      DedupKeys(before, key);
      DedupAppend(Dedup(before, key), row, key);
    }
  }

  /** The rows whose key is not in `seen`. */
  function Unseen<R, K(==)>(rows: seq<R>, key: R -> K, seen: set<K>): seq<R> {
    if rows == [] then []
    else
      Unseen(rows[..|rows| - 1], key, seen) +
      if key(rows[|rows| - 1]) in seen then [] else [rows[|rows| - 1]]
  }

  lemma UnseenAppend<R, K>(rows: seq<R>, row: R, key: R -> K, seen: set<K>)
    ensures Unseen(rows + [row], key, seen) == Unseen(rows, key, seen) + if key(row) in seen then [] else [row]
  {
    assert (rows + [row])[..|rows|] == rows;
  }

  lemma {:induction false} KeysConcat<R, K>(a: seq<R>, b: seq<R>, key: R -> K)
    ensures KeysOf(a + b, key) == KeysOf(a, key) + KeysOf(b, key)
  {
    if b == [] {
      assert a + b == a;
    } else {
      var before, row := b[..|b| - 1], b[|b| - 1];
      KeysConcat(a, before, key);
      assert b == before + [row] && a + b == (a + before) + [row];
      KeysAppend(a + before, row, key);
      KeysAppend(before, row, key);
    }
  }

  /** Deduplicating in two installments: the second part adds its rows with keys new to the first. */
  lemma {:induction false} DedupConcat<R, K>(a: seq<R>, b: seq<R>, key: R -> K)
    ensures Dedup(a + b, key) == Dedup(a, key) + Unseen(Dedup(b, key), key, KeysOf(a, key))
  {
    if b == [] {
      assert a + b == a;
    } else {
      var before, row := b[..|b| - 1], b[|b| - 1];
      assert b == before + [row] && a + b == (a + before) + [row];
      DedupConcat(a, before, key);
      KeysConcat(a, before, key);
      DedupAppend(a + before, row, key);
      DedupAppend(before, row, key);
      UnseenAppend(Dedup(before, key), row, key, KeysOf(a, key));
    }
  }

  // ----- the streaming pass -----

  ghost predicate AllKeyed<R, K>(rows: seq<R>, key: R -> Option<K>) {
    forall i :: 0 <= i < |rows| ==> key(rows[i]).Some?
  }

  /** One more row of the stream. */
  lemma StreamStep<R, K>(rows: seq<R>, key: R -> Option<K>, i: nat)
    requires i < |rows|
    ensures var before, row := rows[..i], rows[i];
            && KeysOf(rows[..i + 1], key) == KeysOf(before, key) + {key(row)}
            && Dedup(rows[..i + 1], key) ==
                 (if key(row) in KeysOf(before, key) then Dedup(before, key) else Dedup(before, key) + [row])
            && (AllKeyed(rows[..i + 1], key) <==> AllKeyed(before, key) && key(row).Some?)
            && (AllKeyed(rows, key) ==> key(row).Some?)
  {
    assert rows[..i + 1] == rows[..i] + [rows[i]];
    KeysAppend(rows[..i], rows[i], key);
    DedupAppend(rows[..i], rows[i], key);
  }

  /** One pass with a `seen` set; a row whose key cannot be built fails the whole step. */
  method Deduplicate<R, K(==)>(rows: seq<R>, key: R -> Option<K>) returns (r: Result<seq<R>>)
    ensures r.Ok? <==> AllKeyed(rows, key)
    ensures r.Ok? ==> r.value == Dedup(rows, key)
  {
    var seen: set<Option<K>>, deduped: seq<R> := {}, [];
    for i := 0 to |rows|
      invariant AllKeyed(rows[..i], key)
      invariant seen == KeysOf(rows[..i], key)
      invariant deduped == Dedup(rows[..i], key)
    {
      StreamStep(rows, key, i);
      var k := key(rows[i]);
      if k.None? {
        return Err("dedup key");
      }
      if k !in seen {
        seen := seen + {k};
        deduped := deduped + [rows[i]];
      }
    }
    assert rows[..|rows|] == rows;
    return Ok(deduped);
  }
}
