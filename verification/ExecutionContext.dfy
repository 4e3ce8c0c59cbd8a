/** The execution context as the object the executor mutates. */
module ExecutionContext {
  import opened Common
  import opened RowStorage
  import opened Deduplicator

  class Executor {
    var workingData: Json
    var rowStorage: Option<seq<Json>>

    function State(): Context
      reads this
    {
      Context(workingData, rowStorage)
    }

    constructor (workingData: Json)
      ensures State() == Context(workingData, None)
    {
      this.workingData, rowStorage := workingData, None;
    }

    method GetRows() returns (r: Result<seq<Json>>)
      ensures r == match Rows(State()) case Some(rows) => Ok(rows) case None => Err("No rows found")
    {
      if rowStorage.Some? {
        return Ok(rowStorage.value);
      }
      if HasRows(workingData) {
        var rows := workingData.fields[ROWS];
        return Ok(if rows.Array? then rows.items else []);
      }
      return Err("No rows found");
    }

    method StoreRows(rows: seq<Json>)
      modifies this
      ensures State() == SetRows(old(State()), rows)
    {
      rowStorage := Some(rows);
      if workingData.Object? {
        workingData := Object(workingData.fields[ROW_COUNT := Number(|rows|)]);
        workingData := Object(workingData.fields - {ROWS});
      }
    }

    /** Inserts the given fields into the working data one by one. */
    method MergeFields(fields: map<string, Json>)
      requires workingData.Object?
      modifies this`workingData
      ensures workingData == Object(old(workingData).fields + fields)
    {
      var rest := fields.Keys;
      while rest != {}
        invariant rest <= fields.Keys && workingData.Object?
        invariant workingData.fields == old(workingData).fields + (fields - rest)
      {
        var key :| key in rest;
        workingData := Object(workingData.fields[key := fields[key]]);
        rest := rest - {key};
      }
      assert fields - rest == fields;
    }

    method ExecuteStepOld(output: Json)
      modifies this
      ensures State() == StepOld(old(State()), output)
    {
      if workingData.Object? && output.Object? {
        MergeFields(output.fields);
      }
    }

    method ExecuteStepNew(output: Json)
      modifies this
      ensures State() == StepNew(old(State()), output)
    {
      var metadata := output;
      if output.Object? {
        metadata := Object(output.fields - {ROWS});
        if ROWS in output.fields && output.fields[ROWS].Array? {
          StoreRows(output.fields[ROWS].items);
        }
      }
      if workingData.Object? && metadata.Object? {
        MergeFields(metadata.fields);
      }
    }

    /** Runs a not yet migrated step: materialize the rows, run it, move the rows back. */
    method ExecuteWrapped(step: Json -> Json)
      modifies this
      ensures State() == LegacyWrapped(old(State()), step)
    {
      if rowStorage.Some? && !HasRows(workingData) && workingData.Object? {
        workingData := Object(workingData.fields[ROWS := Array(rowStorage.value)]);
      }
      workingData := step(workingData);
      if HasRows(workingData) {
        var rows := workingData.fields[ROWS];
        workingData := Object(workingData.fields - {ROWS});
        if rows.Array? {
          StoreRows(rows.items);
        }
      }
    }

    /** Deduplicates the rows of the context by the given key; on failure nothing changes. */
    method ExecuteDeduplicator<K(==)>(key: Json -> Option<K>) returns (r: Result<nat>)
      modifies this
      ensures r.Ok? <==> old(Rows(State())).Some? && AllKeyed(old(Rows(State())).value, key)
      ensures r.Ok? ==> var kept := Dedup(old(Rows(State())).value, key);
                        State() == SetRows(old(State()), kept) && Rows(State()) == Some(kept) && r.value == |kept|
      ensures r.Err? ==> State() == old(State())
    {
      var rows := GetRows();
      if rows.Err? {
        return Err(rows.message);
      }
      var deduped := Deduplicate(rows.value, key);
      if deduped.Err? {
        return Err(deduped.message);
      }
      StoreRows(deduped.value);
      return Ok(|deduped.value|);
    }
  }
}
