/**
  The URIs minted for the columns of a schema, in the form that hangs all columns under the source
  and in the form that gives each table a dataset of its own.  When they are pairwise distinct is
  stated exactly.
*/
module ColumnUris {

  datatype Table = Table(name: string, columns: seq<string>)

  const BASE := "http://graphica.io/ontology/dataset/ds_"

  /** `alnum` is the alphanumeric test on characters. */
  function SanitizeChar(alnum: char -> bool, c: char): char {
    if alnum(c) || c == '_' || c == '-' then c else '_'
  }

  function Sanitize(alnum: char -> bool, s: string): string {
    seq(|s|, i requires 0 <= i < |s| => SanitizeChar(alnum, s[i]))
  }

  /** Sanitizing leaves only safe characters, and changes nothing exactly when there were only safe ones. */
  lemma SanitizeProps(alnum: char -> bool, s: string)
    ensures forall i :: 0 <= i < |s| ==> var c := Sanitize(alnum, s)[i]; alnum(c) || c == '_' || c == '-'
    ensures Sanitize(alnum, s) == s <==> forall i :: 0 <= i < |s| ==> alnum(s[i]) || s[i] == '_' || s[i] == '-'
    ensures Sanitize(alnum, Sanitize(alnum, s)) == Sanitize(alnum, s)
    ensures |Sanitize(alnum, s)| == |s|
    ensures forall i :: 0 <= i < |s| ==> Sanitize(alnum, s)[i] == s[i] || (Sanitize(alnum, s)[i] == '_' && !alnum(s[i]))
  {
    if Sanitize(alnum, s) == s {
      forall i | 0 <= i < |s| ensures alnum(s[i]) || s[i] == '_' || s[i] == '-' {
        assert s[i] == Sanitize(alnum, s)[i];
      }
    }
  }

  function Digit(d: nat): char
    requires d < 10
  {
    "0123456789"[d]
  }

  function Decimal(n: nat): string {
    if n < 10 then [Digit(n)] else Decimal(n / 10) + [Digit(n % 10)]
  }

  function DigitValue(c: char): nat {
    if '0' <= c <= '9' then (c - '0') as nat else 0
  }

  function ParseDecimal(s: string): nat {
    if s == [] then 0 else ParseDecimal(s[..|s| - 1]) * 10 + DigitValue(s[|s| - 1])
  }

  lemma DigitProps(d: nat)
    requires d < 10
    ensures DigitValue(Digit(d)) == d && Digit(d) != '_' && Digit(d) != '/'
  {
  }

  lemma {:induction false} DecimalParses(n: nat)
    ensures ParseDecimal(Decimal(n)) == n
    ensures '_' !in Decimal(n)
  {
    DigitProps(n % 10);
    if n < 10 {
      assert [Digit(n)][..0] == [];
    } else {
      DecimalParses(n / 10);
      var s := Decimal(n);
      assert s[..|s| - 1] == Decimal(n / 10);
    }
  }

  /** The part after the last underscore is recoverable when it holds no underscore itself. */
  lemma SplitAtLastUnderscore(t: string, d: string, t': string, d': string)
    requires '_' !in d && '_' !in d'
    requires t + "_" + d == t' + "_" + d'
    ensures t == t' && d == d'
  {
    var s := t + "_" + d;
    assert s[|t|] == '_' && s[|t'|] == '_';
    forall i | |t| < i < |s| ensures s[i] != '_' {
      assert s[i] == d[i - |t| - 1];
    }
    forall i | |t'| < i < |s| ensures s[i] != '_' {
      assert s[i] == d'[i - |t'| - 1];
    }
    assert |t| == |t'|;
    assert t == s[..|t|] && t' == s[..|t'|];
    assert d == s[|t| + 1..] && d' == s[|t'| + 1..];
  }

  function Indexed(token: string, i: nat): string {
    token + "_" + Decimal(i)
  }

  lemma IndexedInjective(t: string, i: nat, t': string, i': nat)
    ensures Indexed(t, i) == Indexed(t', i') <==> t == t' && i == i'
  {
    if Indexed(t, i) == Indexed(t', i') {
      DecimalParses(i);
      DecimalParses(i');
      SplitAtLastUnderscore(t, Decimal(i), t', Decimal(i'));
    }
  }

  lemma SamePrefix(p: string, a: string, b: string)
    ensures p + a == p + b <==> a == b
  {
    if p + a == p + b {
      assert a == (p + a)[|p|..] && b == (p + b)[|p|..];
    }
  }

  // ----- columns under the source -----

  function SourceColumnUri(alnum: char -> bool, dataset: string, table: string, i: nat): string {
    BASE + Sanitize(alnum, dataset) + "/column/" + Indexed(Sanitize(alnum, table), i)
  }

  lemma SourceUriInjective(alnum: char -> bool, dataset: string, t: string, i: nat, t': string, i': nat)
    ensures SourceColumnUri(alnum, dataset, t, i) == SourceColumnUri(alnum, dataset, t', i')
       <==> Sanitize(alnum, t) == Sanitize(alnum, t') && i == i'
  {
    SamePrefix(BASE + Sanitize(alnum, dataset) + "/column/",
               Indexed(Sanitize(alnum, t), i), Indexed(Sanitize(alnum, t'), i'));
    IndexedInjective(Sanitize(alnum, t), i, Sanitize(alnum, t'), i');
  }

  /** Columns of any two sources get the same URI exactly when source token, table token and position agree. */
  lemma SourceColumnsCollideIff(alnum: char -> bool, d: string, t: string, i: nat, d': string, t': string, i': nat)
    requires !alnum('/')
    ensures SourceColumnUri(alnum, d, t, i) == SourceColumnUri(alnum, d', t', i')
       <==> Sanitize(alnum, d) == Sanitize(alnum, d') && Sanitize(alnum, t) == Sanitize(alnum, t') && i == i'
  {
    var x, x' := Indexed(Sanitize(alnum, t), i), Indexed(Sanitize(alnum, t'), i');
    var a, a' := Sanitize(alnum, d), Sanitize(alnum, d');
    assert SourceColumnUri(alnum, d, t, i) == BASE + (a + "/" + ("column/" + x));
    assert SourceColumnUri(alnum, d', t', i') == BASE + (a' + "/" + ("column/" + x'));
    SamePrefix(BASE, a + "/" + ("column/" + x), a' + "/" + ("column/" + x'));
    SanitizedHasNoSlash(alnum, d);
    SanitizedHasNoSlash(alnum, d');
    if a + "/" + ("column/" + x) == a' + "/" + ("column/" + x') {
      SplitAtFirstSlash(a, "column/" + x, a', "column/" + x');
      SamePrefix("column/", x, x');
    }
    IndexedInjective(Sanitize(alnum, t), i, Sanitize(alnum, t'), i');
  }

  predicate IsColumn(tables: seq<Table>, t: nat, c: nat) {
    t < |tables| && c < |tables[t].columns|
  }

  /** No two columns of the schema get the same URI. */
  ghost predicate AllDistinct(tables: seq<Table>, uri: (nat, nat) -> string) {
    forall t: nat, c: nat, t': nat, c': nat :: IsColumn(tables, t, c) && IsColumn(tables, t', c') && uri(t, c) == uri(t', c') ==>
                             t == t' && c == c'
  }

  function SourceUriOf(alnum: char -> bool, dataset: string, tables: seq<Table>): (nat, nat) -> string {
    (t: nat, c: nat) => if t < |tables| then SourceColumnUri(alnum, dataset, tables[t].name, c) else ""
  }

  /** Under the source, column URIs are pairwise distinct exactly when the tables that have columns have distinct tokens. */
  lemma SourceUrisDistinctIff(alnum: char -> bool, dataset: string, tables: seq<Table>)
    ensures AllDistinct(tables, SourceUriOf(alnum, dataset, tables)) <==>
              forall t, t' :: 0 <= t < t' < |tables| && |tables[t].columns| > 0 && |tables[t'].columns| > 0 ==>
                                Sanitize(alnum, tables[t].name) != Sanitize(alnum, tables[t'].name)
  {
    var uri := SourceUriOf(alnum, dataset, tables);
    forall t: nat, c: nat, t': nat, c': nat | IsColumn(tables, t, c) && IsColumn(tables, t', c')
      ensures uri(t, c) == uri(t', c') <==>
                Sanitize(alnum, tables[t].name) == Sanitize(alnum, tables[t'].name) && c == c'
    {
      SourceUriInjective(alnum, dataset, tables[t].name, c, tables[t'].name, c');
    }
    if AllDistinct(tables, uri) {
      forall t, t' | 0 <= t < t' < |tables| && |tables[t].columns| > 0 && |tables[t'].columns| > 0
        ensures Sanitize(alnum, tables[t].name) != Sanitize(alnum, tables[t'].name)
      {
        assert IsColumn(tables, t, 0) && IsColumn(tables, t', 0);
      }
    }
  }

  // ----- columns under a dataset per table -----

  function TableDatasetUri(alnum: char -> bool, source: string, table: string): string {
    BASE + Sanitize(alnum, source) + "_" + Sanitize(alnum, table)
  }

  function TableColumnUri(alnum: char -> bool, source: string, table: string, column: string, i: nat): string {
    TableDatasetUri(alnum, source, table) + "/column/" + Indexed(Sanitize(alnum, column), i)
  }

  lemma SanitizedHasNoSlash(alnum: char -> bool, s: string)
    requires !alnum('/')
    ensures '/' !in Sanitize(alnum, s)
  {
  }

  lemma SplitAtFirstSlash(a: string, r: string, a': string, r': string)
    requires '/' !in a && '/' !in a'
    requires a + "/" + r == a' + "/" + r'
    ensures a == a' && r == r'
  {
    var s := a + "/" + r;
    assert s[|a|] == '/' && s[|a'|] == '/';
    forall i | 0 <= i < |a| ensures s[i] != '/' {
      assert s[i] == a[i];
    }
    forall i | 0 <= i < |a'| ensures s[i] != '/' {
      assert s[i] == a'[i];
    }
    assert |a| == |a'|;
    assert a == s[..|a|] && a' == s[..|a'|];
    assert r == s[|a| + 1..] && r' == s[|a'| + 1..];
  }

  lemma TableUriInjective(alnum: char -> bool, source: string, t: string, c: string, i: nat, t': string, c': string, i': nat)
    requires !alnum('/')
    ensures TableColumnUri(alnum, source, t, c, i) == TableColumnUri(alnum, source, t', c', i')
       <==> Sanitize(alnum, t) == Sanitize(alnum, t') && Sanitize(alnum, c) == Sanitize(alnum, c') && i == i'
  {
    var a, a' := Sanitize(alnum, t), Sanitize(alnum, t');
    var x, x' := Indexed(Sanitize(alnum, c), i), Indexed(Sanitize(alnum, c'), i');
    var p := BASE + Sanitize(alnum, source) + "_";
    assert TableColumnUri(alnum, source, t, c, i) == p + (a + "/" + ("column/" + x));
    assert TableColumnUri(alnum, source, t', c', i') == p + (a' + "/" + ("column/" + x'));
    SamePrefix(p, a + "/" + ("column/" + x), a' + "/" + ("column/" + x'));
    SanitizedHasNoSlash(alnum, t);
    SanitizedHasNoSlash(alnum, t');
    if a + "/" + ("column/" + x) == a' + "/" + ("column/" + x') {
      SplitAtFirstSlash(a, "column/" + x, a', "column/" + x');
      SamePrefix("column/", x, x');
    }
    IndexedInjective(Sanitize(alnum, c), i, Sanitize(alnum, c'), i');
  }

  /** The underscore that joins `a` and `b` lies inside `a'`, and the one that joins `a'` and `b'` inside `b`. */
  ghost predicate Straddles(a: string, b: string, a': string, b': string) {
    exists x: string :: a' == a + "_" + x && b == x + "_" + b'
  }

  lemma JoinedEqualIff(a: string, b: string, a': string, b': string)
    ensures a + "_" + b == a' + "_" + b' <==>
              (a == a' && b == b') || Straddles(a, b, a', b') || Straddles(a', b', a, b)
  {
    if a + "_" + b == a' + "_" + b' {
      if |a| == |a'| {
        SplitJoined(a, b, a', b');
      } else if |a| < |a'| {
        StraddlesShorter(a, b, a', b');
      } else {
        StraddlesShorter(a', b', a, b);
      }
    }
  }

  lemma SplitJoined(a: string, b: string, a': string, b': string)
    requires a + "_" + b == a' + "_" + b' && |a| == |a'|
    ensures a == a' && b == b'
  {
    var s := a + "_" + b;
    assert a == s[..|a|] && a' == s[..|a|] && b == s[|a| + 1..] && b' == s[|a| + 1..];
  }

  lemma StraddlesShorter(a: string, b: string, a': string, b': string)
    requires a + "_" + b == a' + "_" + b' && |a| < |a'|
    ensures Straddles(a, b, a', b')
  {
    var s, x := a + "_" + b, a'[|a| + 1..];
    assert a' == s[..|a'|] && s[|a|] == '_' && a == s[..|a|];
    assert a' == a + "_" + x;
    assert b == s[|a| + 1..] && s == a' + "_" + b';
    assert b == x + "_" + b';
  }

  /**
    The datasets of two tables, of any two sources, get the same URI exactly when the source and table
    tokens agree, or one source token followed by part of its table token reads like the other's.
  */
  lemma TableDatasetsCollideIff(alnum: char -> bool, source: string, table: string, source': string, table': string)
    ensures TableDatasetUri(alnum, source, table) == TableDatasetUri(alnum, source', table') <==>
              var s, t, s', t' := Sanitize(alnum, source), Sanitize(alnum, table),
                                  Sanitize(alnum, source'), Sanitize(alnum, table');
              (s == s' && t == t') || Straddles(s, t, s', t') || Straddles(s', t', s, t)
  {
    var s, t, s', t' := Sanitize(alnum, source), Sanitize(alnum, table), Sanitize(alnum, source'), Sanitize(alnum, table');
    assert TableDatasetUri(alnum, source, table) == BASE + (s + "_" + t);
    assert TableDatasetUri(alnum, source', table') == BASE + (s' + "_" + t');
    SamePrefix(BASE, s + "_" + t, s' + "_" + t');
    JoinedEqualIff(s, t, s', t');
  }

  /** Columns under table datasets of any two sources get the same URI exactly when the datasets do and column token and position agree. */
  lemma TableColumnsCollideIff(alnum: char -> bool, s: string, t: string, c: string, i: nat,
                               s': string, t': string, c': string, i': nat)
    requires !alnum('/')
    ensures TableColumnUri(alnum, s, t, c, i) == TableColumnUri(alnum, s', t', c', i')
       <==> TableDatasetUri(alnum, s, t) == TableDatasetUri(alnum, s', t') &&
            Sanitize(alnum, c) == Sanitize(alnum, c') && i == i'
  {
    var a, a' := Sanitize(alnum, s) + "_" + Sanitize(alnum, t), Sanitize(alnum, s') + "_" + Sanitize(alnum, t');
    var x, x' := Indexed(Sanitize(alnum, c), i), Indexed(Sanitize(alnum, c'), i');
    assert TableDatasetUri(alnum, s, t) == BASE + a && TableDatasetUri(alnum, s', t') == BASE + a';
    assert TableColumnUri(alnum, s, t, c, i) == BASE + (a + "/" + ("column/" + x));
    assert TableColumnUri(alnum, s', t', c', i') == BASE + (a' + "/" + ("column/" + x'));
    SamePrefix(BASE, a + "/" + ("column/" + x), a' + "/" + ("column/" + x'));
    SamePrefix(BASE, a, a');
    SanitizedHasNoSlash(alnum, s);
    SanitizedHasNoSlash(alnum, t);
    SanitizedHasNoSlash(alnum, s');
    SanitizedHasNoSlash(alnum, t');
    if a + "/" + ("column/" + x) == a' + "/" + ("column/" + x') {
      SplitAtFirstSlash(a, "column/" + x, a', "column/" + x');
      SamePrefix("column/", x, x');
    }
    IndexedInjective(Sanitize(alnum, c), i, Sanitize(alnum, c'), i');
  }

  function TableUriOf(alnum: char -> bool, source: string, tables: seq<Table>): (nat, nat) -> string {
    (t: nat, c: nat) =>
      if IsColumn(tables, t, c) then TableColumnUri(alnum, source, tables[t].name, tables[t].columns[c], c) else ""
  }

  /** The two tables, and their columns at position `c`, look alike once sanitized. */
  predicate SameTokens(alnum: char -> bool, tables: seq<Table>, t: nat, t': nat, c: nat)
    requires IsColumn(tables, t, c) && IsColumn(tables, t', c)
  {
    && Sanitize(alnum, tables[t].name) == Sanitize(alnum, tables[t'].name)
    && Sanitize(alnum, tables[t].columns[c]) == Sanitize(alnum, tables[t'].columns[c])
  }

  /** With a dataset per table, two columns collide exactly if table token, column token and position all agree. */
  lemma TableUrisDistinctIff(alnum: char -> bool, source: string, tables: seq<Table>)
    requires !alnum('/')
    ensures AllDistinct(tables, TableUriOf(alnum, source, tables)) <==>
              forall t: nat, t': nat, c: nat :: t < t' && IsColumn(tables, t, c) && IsColumn(tables, t', c) ==>
                !SameTokens(alnum, tables, t, t', c)
  {
    var uri := TableUriOf(alnum, source, tables);
    if AllDistinct(tables, uri) {
      forall t: nat, t': nat, c: nat | t < t' && IsColumn(tables, t, c) && IsColumn(tables, t', c)
        ensures !SameTokens(alnum, tables, t, t', c)
      {
        SameUriIff(alnum, source, tables, t, c, t', c);
        assert uri(t, c) != uri(t', c);
      }
    } else {
      var t: nat, c: nat, t': nat, c': nat :| IsColumn(tables, t, c) && IsColumn(tables, t', c') &&
                                              uri(t, c) == uri(t', c') && !(t == t' && c == c');
      SameUriIff(alnum, source, tables, t, c, t', c');
      assert c == c';
      assert SameTokens(alnum, tables, t, t', c) && SameTokens(alnum, tables, t', t, c);
    }
  }

  lemma SameUriIff(alnum: char -> bool, source: string, tables: seq<Table>, t: nat, c: nat, t': nat, c': nat)
    requires !alnum('/') && IsColumn(tables, t, c) && IsColumn(tables, t', c')
    ensures var uri := TableUriOf(alnum, source, tables);
            uri(t, c) == uri(t', c') <==> c == c' && SameTokens(alnum, tables, t, t', c)
  {
    TableUriInjective(alnum, source, tables[t].name, tables[t].columns[c], c, tables[t'].name, tables[t'].columns[c'], c');
  }

  // ----- the loops that mint them -----

  /** One URI per column, table by table. */
  method MintSourceColumns(alnum: char -> bool, dataset: string, tables: seq<Table>) returns (uris: seq<seq<string>>)
    ensures |uris| == |tables|
    ensures forall t :: 0 <= t < |tables| ==> |uris[t]| == |tables[t].columns|
    ensures forall t: nat, c: nat :: IsColumn(tables, t, c) ==> uris[t][c] == SourceUriOf(alnum, dataset, tables)(t, c)
  {
    var datasetUri := BASE + Sanitize(alnum, dataset);
    uris := [];
    for t := 0 to |tables|
      invariant |uris| == t
      invariant forall i :: 0 <= i < t ==> |uris[i]| == |tables[i].columns|
      invariant forall i: nat, c: nat :: i < t && IsColumn(tables, i, c) ==>
                  uris[i][c] == SourceColumnUri(alnum, dataset, tables[i].name, c)
    {
      var token := Sanitize(alnum, tables[t].name);
      var minted: seq<string> := [];
      for c := 0 to |tables[t].columns|
        invariant |minted| == c
        invariant forall i :: 0 <= i < c ==> minted[i] == SourceColumnUri(alnum, dataset, tables[t].name, i)
      {
        minted := minted + [datasetUri + "/column/" + Indexed(token, c)];
      }
      uris := uris + [minted];
    }
  }

  method MintTableColumns(alnum: char -> bool, source: string, tables: seq<Table>) returns (uris: seq<seq<string>>)
    ensures |uris| == |tables|
    ensures forall t :: 0 <= t < |tables| ==> |uris[t]| == |tables[t].columns|
    ensures forall t: nat, c: nat :: IsColumn(tables, t, c) ==> uris[t][c] == TableUriOf(alnum, source, tables)(t, c)
  {
    uris := [];
    for t := 0 to |tables|
      invariant |uris| == t
      invariant forall i :: 0 <= i < t ==> |uris[i]| == |tables[i].columns|
      invariant forall i: nat, c: nat :: i < t && IsColumn(tables, i, c) ==>
                  uris[i][c] == TableColumnUri(alnum, source, tables[i].name, tables[i].columns[c], c)
    {
      var tableUri := TableDatasetUri(alnum, source, tables[t].name);
      var minted: seq<string> := [];
      for c := 0 to |tables[t].columns|
        invariant |minted| == c
        invariant forall i :: 0 <= i < c ==>
                    minted[i] == TableColumnUri(alnum, source, tables[t].name, tables[t].columns[i], i)
      {
        minted := minted + [tableUri + "/column/" + Indexed(Sanitize(alnum, tables[t].columns[c]), c)];
      }
      uris := uris + [minted];
    }
  }
}
