/**
  The row-storage refactor of the workflow executor: step results used to be merged wholesale into
  the working data; now the rows move to a separate storage and only metadata is merged.  The new
  execution simulates the old one, also through the wrapper that runs not yet migrated steps, and
  the exact conditions are stated for one step of either kind.
*/
module RowStorage {
  import opened Common

  datatype Json =
    | Null
    | Bool(value: bool)
    | Number(number: int)
    | Text(text: string)
    | Array(items: seq<Json>)
    | Object(fields: map<string, Json>)

  const ROWS := "_rows"
  const ROW_COUNT := "_row_count"

  datatype Context = Context(working: Json, storage: Option<seq<Json>>)

  predicate HasRows(w: Json) {
    w.Object? && ROWS in w.fields
  }

  /** The rows a step sees through the accessor; None is the "no rows found" error. */
  function Rows(c: Context): Option<seq<Json>> {
    if c.storage.Some? then c.storage
    else if HasRows(c.working) then
      Some(if c.working.fields[ROWS].Array? then c.working.fields[ROWS].items else [])
    else None
  }

  function SetRows(c: Context, rows: seq<Json>): Context {
    Context(
      if c.working.Object? then Object(c.working.fields[ROW_COUNT := Number(|rows|)] - {ROWS}) else c.working,
      Some(rows))
  }

  /** Old execution: every field of the output, rows included, goes into the working data. */
  function StepOld(c: Context, output: Json): Context {
    if c.working.Object? && output.Object? then c.(working := Object(c.working.fields + output.fields)) else c
  }

  /** New execution: an array of rows goes to the storage, all other fields into the working data. */
  function StepNew(c: Context, output: Json): Context {
    var stored := if HasRows(output) && output.fields[ROWS].Array? then SetRows(c, output.fields[ROWS].items) else c;
    if output.Object? && stored.working.Object?
    then stored.(working := Object(stored.working.fields + (output.fields - {ROWS})))
    else stored
  }

  function Materialized(c: Context): Context {
    if c.storage.Some? && c.working.Object? && ROWS !in c.working.fields
    then c.(working := Object(c.working.fields[ROWS := Array(c.storage.value)]))
    else c
  }

  function Extracted(c: Context): Context {
    if !HasRows(c.working) then c
    else
      var rows := c.working.fields[ROWS];
      var bare := c.(working := Object(c.working.fields - {ROWS}));
      if rows.Array? then SetRows(bare, rows.items) else bare
  }

  /** A not yet migrated step, a function of the working data, run directly and through the wrapper. */
  function LegacyOld(c: Context, step: Json -> Json): Context {
    c.(working := step(c.working))
  }

  function LegacyWrapped(c: Context, step: Json -> Json): Context {
    var m := Materialized(c);
    Extracted(m.(working := step(m.working)))
  }

  // ----- what a step finds and leaves -----

  /** The rows that were stored are the rows that are read, whatever the working data holds; else those of the working data. */
  lemma RowsMeaning(c: Context, rows: seq<Json>, fields: map<string, Json>)
    ensures Rows(SetRows(c, rows)) == Some(rows)
    ensures Rows(Context(c.working, Some(rows))) == Some(rows)
    ensures Rows(Context(Object(fields["_rows" := Array(rows)]), None)) == Some(rows)
    ensures Rows(Context(Object(fields - {"_rows"}), None)) == None
  {
  }

  /** Merging: a field of the output is what the working data holds afterwards, other fields stay. */
  lemma StepMerges(c: Context, output: Json, k: string)
    requires c.working.Object? && output.Object? && k != ROWS
    ensures var o, n := StepOld(c, output), StepNew(c, output);
            && o.working.Object? && n.working.Object?
            && (k in output.fields ==> k in o.working.fields && o.working.fields[k] == output.fields[k])
            && (k in output.fields ==> k in n.working.fields && n.working.fields[k] == output.fields[k])
            && (k !in output.fields ==> (k in o.working.fields <==> k in c.working.fields))
            && (k !in output.fields && k in c.working.fields ==> o.working.fields[k] == c.working.fields[k])
            && (k !in output.fields && k != ROW_COUNT ==> (k in n.working.fields <==> k in c.working.fields))
            && (k !in output.fields && k != ROW_COUNT && k in c.working.fields ==>
                  n.working.fields[k] == c.working.fields[k])
  {
  }

  /** The count in the working data is the number of stored rows. */
  predicate Counted(c: Context) {
    c.storage.Some? && c.working.Object? ==>
      "_row_count" in c.working.fields && c.working.fields["_row_count"] == Number(|c.storage.value|)
  }

  /** New execution keeps the count right exactly unless the output brings a `_row_count` that is wrong. */
  lemma StepCountsIff(c: Context, output: Json)
    requires Counted(c) && c.working.Object?
    ensures var n := StepNew(c, output);
            Counted(n) <==>
              (n.storage.Some? && output.Object? && ROW_COUNT in output.fields ==>
                 output.fields[ROW_COUNT] == Number(|n.storage.value|))
  {
  }

  // ----- simulation -----

  function Metadata(w: Json): map<string, Json>
    requires w.Object?
  {
    w.fields - {ROWS, ROW_COUNT}
  }

  /** The two executions show the same rows and the same metadata, apart from the row count. */
  ghost predicate Simulates(o: Context, n: Context) {
    && o.storage == None
    && o.working.Object? == n.working.Object?
    && (if o.working.Object? then Metadata(o.working) == Metadata(n.working) else o.working == n.working)
    && Rows(o) == Rows(n)
  }

  /** The output can be merged without the rows drifting apart. */
  predicate Mergeable(o: Context, output: Json) {
    HasRows(output) ==>
      var rows := output.fields[ROWS];
      if o.working.Object? then rows.Array? || Rows(o) == Some([]) else !rows.Array?
  }

  /** One step keeps the simulation exactly when its output is mergeable. */
  lemma StepSimulatesIff(o: Context, n: Context, output: Json)
    requires Simulates(o, n)
    ensures Simulates(StepOld(o, output), StepNew(n, output)) <==> Mergeable(o, output)
  {
    if o.working.Object? && output.Object? {
      var o', n' := StepOld(o, output), StepNew(n, output);
      assert Metadata(o'.working) == Metadata(o.working) + (output.fields - {ROWS, ROW_COUNT});
      assert Metadata(n'.working) == Metadata(n.working) + (output.fields - {ROWS, ROW_COUNT});
    }
  }

  /** A non-array `_rows` hides the rows from old steps and leaves them in place for new ones. */
  lemma NonArrayRowsDiverge(row: Json)
    ensures var start := Context(Object(map[ROWS := Array([row])]), None);
            var output := Object(map[ROWS := Null]);
            && Simulates(start, start)
            && Rows(StepOld(start, output)) == Some([])
            && Rows(StepNew(start, output)) == Some([row])
  {
  }

  // ----- not yet migrated steps -----

  predicate SameButCount(a: Json, b: Json) {
    a.Object? && b.Object? && a.fields - {ROW_COUNT} == b.fields - {ROW_COUNT}
  }

  /** The step works on an object, yields an object, and neither reads nor depends on the row count. */
  ghost predicate CountBlind(step: Json -> Json) {
    forall a, b :: SameButCount(a, b) ==> SameButCount(step(a), step(b))
  }

  /** Rows, where present, are an array, and never in both places. */
  predicate Tidy(c: Context) {
    && c.working.Object?
    && (HasRows(c.working) ==> c.working.fields[ROWS].Array? && c.storage.None?)
  }

  lemma MaterializedMatches(o: Context, n: Context)
    requires Simulates(o, n) && Tidy(o) && Tidy(n)
    ensures SameButCount(o.working, Materialized(n).working)
  {
    var a, b := o.working.fields - {ROW_COUNT}, Materialized(n).working.fields - {ROW_COUNT};
    assert HasRows(o.working) <==> HasRows(Materialized(n).working);
    assert ROWS in a ==> a[ROWS] == b[ROWS];
    forall k | k != ROWS && k != ROW_COUNT
      ensures k in a <==> k in b
      ensures k in a ==> a[k] == b[k]
    {
      assert k in a <==> k in Metadata(o.working);
      assert k in b <==> k in Metadata(n.working);
      assert k in a ==> a[k] == Metadata(o.working)[k] == Metadata(n.working)[k];
    }
    assert a.Keys == b.Keys;
  }

  /** What extracting the rows shows, by what the step left under `_rows`. */
  lemma ExtractedShows(o: Context, m: Context)
    requires o.storage == None && SameButCount(o.working, m.working)
    ensures Simulates(o, Extracted(m)) <==>
              (HasRows(o.working) && o.working.fields[ROWS].Array?)
              || (!HasRows(o.working) && m.storage == None)
              || (HasRows(o.working) && !o.working.fields[ROWS].Array? && m.storage == Some([]))
    ensures HasRows(o.working) && o.working.fields[ROWS].Array? ==> Tidy(Extracted(m))
    ensures !HasRows(o.working) ==> Tidy(Extracted(m))
  {
    var a, b := o.working.fields - {ROW_COUNT}, m.working.fields - {ROW_COUNT};
    assert ROWS in o.working.fields <==> ROWS in a;
    assert ROWS in m.working.fields <==> ROWS in b;
    assert ROWS in a ==> o.working.fields[ROWS] == a[ROWS] == b[ROWS] == m.working.fields[ROWS];
    assert a - {ROWS} == Metadata(o.working);
    assert b - {ROWS} == Metadata(m.working) == Metadata(Extracted(m).working);
  }

  /**
    The wrapper keeps the simulation exactly when the step leaves an array under `_rows`, or leaves
    nothing where there were no stored rows, or leaves a non-array where the stored rows were empty.
  */
  lemma WrapperSimulatesIff(o: Context, n: Context, step: Json -> Json)
    requires Simulates(o, n) && Tidy(o) && Tidy(n) && CountBlind(step)
    ensures var w := step(o.working);
            Simulates(LegacyOld(o, step), LegacyWrapped(n, step)) <==>
              (HasRows(w) && w.fields[ROWS].Array?)
              || (!HasRows(w) && n.storage == None)
              || (HasRows(w) && !w.fields[ROWS].Array? && n.storage == Some([]))
    ensures var w := step(o.working);
            (HasRows(w) ==> w.fields[ROWS].Array?) ==> Tidy(LegacyOld(o, step)) && Tidy(LegacyWrapped(n, step))
  {
    MaterializedMatches(o, n);
    var m := Materialized(n);
    ExtractedShows(LegacyOld(o, step), m.(working := step(m.working)));
  }

  // ----- whole workflows -----

  /** What a step reads: the rows through the accessor, and the metadata. */
  function Seen(c: Context): (Option<seq<Json>>, map<string, Json>) {
    (Rows(c), if c.working.Object? then Metadata(c.working) else map[])
  }

  /**
    A step that computes an output, to be merged, from the rows and the metadata it sees, or a not
    yet migrated step.
  */
  datatype Step = Merge(output: ((Option<seq<Json>>, map<string, Json>)) -> Json) | Legacy(run: Json -> Json)

  /** Outputs whose rows are absent or an array; old steps that leave an array of rows, or none where there were none. */
  ghost predicate WellBehaved(s: Step) {
    match s
    case Merge(output) => forall seen :: HasRows(output(seen)) ==> output(seen).fields[ROWS].Array?
    case Legacy(run) =>
      CountBlind(run) &&
      forall w: Json :: w.Object? ==>
        if HasRows(run(w)) then run(w).fields[ROWS].Array? else !HasRows(w)
  }

  function RunOld(c: Context, steps: seq<Step>): Context {
    if steps == [] then c
    else
      var before := RunOld(c, steps[..|steps| - 1]);
      match steps[|steps| - 1]
      case Merge(output) => StepOld(before, output(Seen(before)))
      case Legacy(run) => LegacyOld(before, run)
  }

  function RunNew(c: Context, steps: seq<Step>): Context {
    if steps == [] then c
    else
      var before := RunNew(c, steps[..|steps| - 1]);
      match steps[|steps| - 1]
      case Merge(output) => StepNew(before, output(Seen(before)))
      case Legacy(run) => LegacyWrapped(before, run)
  }

  /**
    After every workflow of well-behaved steps the two executions show the same rows and metadata, so
    each step has seen the same and has given the same output in both.
  */
  lemma {:induction false} WorkflowSimulates(start: Context, steps: seq<Step>)
    requires start.storage == None && Tidy(start)
    requires forall i :: 0 <= i < |steps| ==> WellBehaved(steps[i])
    ensures var o, n := RunOld(start, steps), RunNew(start, steps);
            Simulates(o, n) && Tidy(o) && Tidy(n) && Seen(o) == Seen(n)
  {
    if steps != [] {
      var before, s := steps[..|steps| - 1], steps[|steps| - 1];
      WorkflowSimulates(start, before);
      var o, n := RunOld(start, before), RunNew(start, before);
      match s {
        case Merge(output) =>
          assert Seen(o) == Seen(n);
          StepSimulatesIff(o, n, output(Seen(o)));
        case Legacy(run) => WrapperSimulatesIff(o, n, run);
      }
    }
  }

  /** The step's output, if it is one to be merged, brings no count of its own. */
  ghost predicate LeavesCount(s: Step) {
    s.Merge? ==> forall seen :: var out := s.output(seen); out.Object? ==> ROW_COUNT !in out.fields
  }

  /** In every such workflow of well-behaved steps the count is the number of rows at every point. */
  lemma {:induction false} WorkflowCounts(start: Context, steps: seq<Step>)
    requires start.storage == None && Tidy(start)
    requires forall i :: 0 <= i < |steps| ==> WellBehaved(steps[i]) && LeavesCount(steps[i])
    ensures Counted(RunNew(start, steps))
  {
    if steps != [] {
      var before, s := steps[..|steps| - 1], steps[|steps| - 1];
      WorkflowCounts(start, before);
      WorkflowSimulates(start, before);
      var n := RunNew(start, before);
      match s {
        case Merge(output) => StepCountsIff(n, output(Seen(n)));
        case Legacy(run) =>
          var m := Materialized(n).working;
          assert SameButCount(m, m) && SameButCount(run(m), run(m));
          WrapperCounts(n, run);
      }
    }
  }

  /** The wrapper leaves the right count behind whenever the step leaves rows, or there are none. */
  lemma WrapperCounts(n: Context, run: Json -> Json)
    requires Tidy(n)
    requires var m := Materialized(n).working;
             run(m).Object? && if HasRows(run(m)) then run(m).fields[ROWS].Array? else !HasRows(m)
    ensures Counted(LegacyWrapped(n, run))
  {
    var m := Materialized(n);
    var ran := m.(working := run(m.working));
    if HasRows(ran.working) {
      var bare := ran.(working := Object(ran.working.fields - {ROWS}));
      assert LegacyWrapped(n, run) == SetRows(bare, ran.working.fields[ROWS].items);
    } else {
      assert n.storage.Some? ==> HasRows(m.working);
    }
  }
}
