/**
 * The query construction of the PostgreSQL helpers in database/db.js: the dynamic `UPDATE`
 * that `updateExerciseSet` assembles from the truthy properties of `updates`, the parameter
 * list of `createExerciseSet`, and the row `getSystemSettings` falls back to.
 *
 * Running the queries (`pool.query`) and `JSON.parse` of the rows are not modelled; a value
 * passed through `JSON.stringify` is kept as the list or string it encodes (`Json`, `JsonString`).
 */
module DbQueries {
  import opened Wrappers
  import opened JsString
  import ExerciseList
  import ServerStore

  /** A property of the object passed in: absent, `null`, a string, or an exercise list. */
  datatype Field = Absent | Null | Str(s: string) | List(items: seq<ExerciseList.Exercise>)

  /** JavaScript truthiness: a non-empty string, or any array (even an empty one). */
  predicate Truthy(f: Field) {
    f.List? || (f.Str? && f.s != "")
  }

  /**
   * A query parameter: a string or an array passed as it is, or the text `JSON.stringify`
   * writes for an exercise list or for a string.
   */
  datatype Param =
    | Text(s: string)
    | Array(items: seq<ExerciseList.Exercise>)
    | Json(items: seq<ExerciseList.Exercise>)
    | JsonString(s: string)

  /** A property passed to the driver unchanged. */
  function Raw(f: Field): Param
    requires Truthy(f)
  {
    if f.List? then Array(f.items) else Text(f.s)
  }

  /** `JSON.stringify` of a property, whatever it holds. */
  function Stringified(f: Field): Param
    requires Truthy(f)
  {
    if f.List? then Json(f.items) else JsonString(f.s)
  }

  /** The index in `Columns` of `exercises`, the one column whose value is stringified. */
  const ExercisesColumn: nat := 1

  /** The parameter a truthy property becomes: stringified for `exercises`, unchanged otherwise. */
  function ParamOf(column: nat, f: Field): Param
    requires Truthy(f)
  {
    if column == ExercisesColumn then Stringified(f) else Raw(f)
  }

  /** The properties of `updates` that `updateExerciseSet` looks at. */
  datatype Updates = Updates(
    title: Field,
    exercises: Field,
    chatLanguage: Field,
    chatModel: Field,
    chatInstruction: Field,
    reasoningEffort: Field,
    verbosity: Field)

  /** The columns, in the order the properties are tested. */
  const Columns: seq<string> :=
    ["title", "exercises", "chat_language", "chat_model", "chat_instruction", "reasoning_effort", "verbosity"]

  /** The properties of `updates`, in the order of `Columns`. */
  function Candidates(u: Updates): (r: seq<Field>)
    ensures |r| == |Columns|
  {
    [u.title, u.exercises, u.chatLanguage, u.chatModel, u.chatInstruction, u.reasoningEffort, u.verbosity]
  }

  /** One `column = $k` of the SET clause: the column's index in `Columns` and its parameter. */
  datatype Assignment = Assignment(column: nat, value: Param)

  /** The assignments made by the first `n` tests. */
  function AssignmentsUpTo(u: Updates, n: nat): seq<Assignment>
    requires n <= |Columns|
  {
    if n == 0 then []
    else
      var f := Candidates(u)[n - 1];
      AssignmentsUpTo(u, n - 1) + if Truthy(f) then [Assignment(n - 1, ParamOf(n - 1, f))] else []
  }

  /** The assignments of the whole update. */
  function Assignments(u: Updates): seq<Assignment> {
    AssignmentsUpTo(u, |Columns|)
  }

  /**
   * The assignments are exactly the truthy properties, each with its own value, in column
   * order and each column at most once.
   */
  lemma {:induction false} AssignmentsUpToSpec(u: Updates, n: nat)
    requires n <= |Columns|
    ensures var a := AssignmentsUpTo(u, n);
      && (forall k :: 0 <= k < |a| ==>
            a[k].column < n && Truthy(Candidates(u)[a[k].column]) && a[k].value == ParamOf(a[k].column, Candidates(u)[a[k].column]))
      && (forall k, l :: 0 <= k < l < |a| ==> a[k].column < a[l].column)
      && (forall c :: 0 <= c < n && Truthy(Candidates(u)[c]) ==> exists k :: 0 <= k < |a| && a[k].column == c)
  {
    if n > 0 {
      AssignmentsUpToSpec(u, n - 1);
      var prev := AssignmentsUpTo(u, n - 1);
      var a := AssignmentsUpTo(u, n);
      assert forall k :: 0 <= k < |prev| ==> a[k] == prev[k];
      if Truthy(Candidates(u)[n - 1]) {
        assert a[|prev|].column == n - 1;
      }
    }
  }

  lemma AssignmentsSpec(u: Updates)
    ensures var a := Assignments(u);
      && (forall k :: 0 <= k < |a| ==>
            a[k].column < |Columns| && Truthy(Candidates(u)[a[k].column])
            && a[k].value == ParamOf(a[k].column, Candidates(u)[a[k].column]))
      && (forall k, l :: 0 <= k < l < |a| ==> a[k].column < a[l].column)
      && (forall c :: 0 <= c < |Columns| && Truthy(Candidates(u)[c]) ==> exists k :: 0 <= k < |a| && a[k].column == c)
  {
    assert Assignments(u) == AssignmentsUpTo(u, |Columns|);
    AssignmentsUpToSpec(u, |Columns|);
  }

  /** No column is ever set to an empty string: falsy properties are skipped. */
  lemma NoEmptyStringAssigned(u: Updates)
    ensures forall k :: 0 <= k < |Assignments(u)| ==> Assignments(u)[k].value != Text("")
  {
    AssignmentsSpec(u);
  }

  /** `${column} = $${k}`: the `k`-th fragment of the SET clause. */
  function Fragment(a: Assignment, k: nat): string
    requires a.column < |Columns|
  {
    Columns[a.column] + " = $" + NatToString(k)
  }

  /** All assignments name a column. */
  predicate WellFormed(a: seq<Assignment>) {
    forall k :: 0 <= k < |a| ==> a[k].column < |Columns|
  }

  /** The SET fragments, numbered `$1..$n` in order. */
  function SetFragments(a: seq<Assignment>): (r: seq<string>)
    requires WellFormed(a)
    ensures |r| == |a|
  {
    seq(|a|, k requires 0 <= k < |a| => Fragment(a[k], k + 1))
  }

  /** The values of the assignments, in order. */
  function ValuesOf(a: seq<Assignment>): (r: seq<Param>)
    ensures |r| == |a|
  {
    seq(|a|, k requires 0 <= k < |a| => a[k].value)
  }

  /** The text of the UPDATE statement, whitespace as in the template literal. */
  function UpdateText(fields: seq<string>, whereParam: nat): string {
    "\n            UPDATE exercise_sets \n            SET " + Join(fields, ", ")
    + "\n            WHERE id = $" + NatToString(whereParam) + "\n            RETURNING *\n        "
  }

  /** A query and its parameters. */
  datatype Sql = Sql(text: string, values: seq<Param>)

  /** The state of the builder after the tests made so far. */
  predicate Built(fields: seq<string>, values: seq<Param>, paramCount: int, a: seq<Assignment>) {
    && WellFormed(a)
    && fields == SetFragments(a)
    && values == ValuesOf(a)
    && paramCount == |a| + 1
  }

  /** One `if (updates.x) { fields.push(...); values.push(...) }` step of the builder. */
  method AddField(fields: seq<string>, values: seq<Param>, paramCount: int, u: Updates, column: nat)
    returns (fields': seq<string>, values': seq<Param>, paramCount': int)
    requires column < |Columns|
    requires Built(fields, values, paramCount, AssignmentsUpTo(u, column))
    ensures Built(fields', values', paramCount', AssignmentsUpTo(u, column + 1))
  {
    fields', values', paramCount' := fields, values, paramCount;
    var f := Candidates(u)[column];
    if Truthy(f) {
      fields' := fields + [Columns[column] + " = $" + NatToString(paramCount)];
      paramCount' := paramCount + 1;
      values' := values + [ParamOf(column, f)];
    }
  }

  /**
   * `updateExerciseSet(id, updates)`: `None` (no query at all) when no property is truthy;
   * otherwise the SET clause lists the truthy properties as `$1..$n`, the values follow in
   * the same order, and the id is the last value, selected by `$(n+1)`.
   */
  method UpdateExerciseSet(id: string, updates: Updates) returns (query: Option<Sql>)
    ensures var a := Assignments(updates);
      && WellFormed(a)
      && (query.None? <==> |a| == 0)
      && (query.Some? ==>
            query.value == Sql(UpdateText(SetFragments(a), |a| + 1), ValuesOf(a) + [Text(id)]))
  {
    var fields: seq<string> := [];
    var values: seq<Param> := [];
    var paramCount := 1;
    fields, values, paramCount := AddField(fields, values, paramCount, updates, 0);
    fields, values, paramCount := AddField(fields, values, paramCount, updates, 1);
    fields, values, paramCount := AddField(fields, values, paramCount, updates, 2);
    fields, values, paramCount := AddField(fields, values, paramCount, updates, 3);
    fields, values, paramCount := AddField(fields, values, paramCount, updates, 4);
    fields, values, paramCount := AddField(fields, values, paramCount, updates, 5);
    fields, values, paramCount := AddField(fields, values, paramCount, updates, 6);
    if |fields| == 0 {
      return None;
    }
    values := values + [Text(id)];
    query := Some(Sql(UpdateText(fields, paramCount), values));
  }

  /**
   * Every parameter number of the statement selects the right value: `$k` of fragment `k`
   * selects the value of that fragment's column, and the last one, used by the WHERE clause,
   * is the id; there are exactly as many values as parameter numbers.
   */
  lemma ParametersBound(id: string, u: Updates)
    ensures var a := Assignments(u);
      var values := ValuesOf(a) + [Text(id)];
      && |values| == |a| + 1
      && values[|a|] == Text(id)
      && forall k :: 0 <= k < |a| ==>
           a[k].column < |Columns| && Truthy(Candidates(u)[a[k].column])
           && values[k] == ParamOf(a[k].column, Candidates(u)[a[k].column])
  {
    AssignmentsSpec(u);
  }

  /**
   * Only the `exercises` value goes through `JSON.stringify`, whatever it holds; every other
   * truthy property, a string or an array, is passed unchanged.
   */
  lemma StringifiedOnlyExercises(u: Updates)
    ensures forall k :: 0 <= k < |Assignments(u)| ==>
      var a := Assignments(u)[k];
      && a.column < |Columns| && Truthy(Candidates(u)[a.column])
      && (a.value.Json? || a.value.JsonString? <==> a.column == ExercisesColumn)
      && (a.column == ExercisesColumn && u.exercises.Str? ==> a.value == JsonString(u.exercises.s))
      && (a.column != ExercisesColumn ==> a.value == Raw(Candidates(u)[a.column]))
  {
    AssignmentsSpec(u);
  }

  /** Nothing truthy, nothing to run: `updateExerciseSet` returns `null` before any query. */
  lemma NothingToUpdate(u: Updates)
    requires forall c :: 0 <= c < |Columns| ==> !Truthy(Candidates(u)[c])
    ensures Assignments(u) == []
  {
    NothingUpTo(u, |Columns|);
  }

  lemma {:induction false} NothingUpTo(u: Updates, n: nat)
    requires n <= |Columns|
    requires forall c :: 0 <= c < n ==> !Truthy(Candidates(u)[c])
    ensures AssignmentsUpTo(u, n) == []
  {
    if n > 0 {
      NothingUpTo(u, n - 1);
    }
  }

  // ---------------------------------------------------------------------------------------
  // createExerciseSet and getSystemSettings

  /** The columns of the INSERT, bound to `$1..$7`. */
  const InsertColumns: seq<string> :=
    ["id", "title", "exercises", "chat_language", "created_by", "created_at", "last_used"]

  /** The properties of the set `createExerciseSet` stores. */
  datatype NewExerciseSet = NewExerciseSet(
    id: string,
    title: string,
    exercises: seq<ExerciseList.Exercise>,
    chatLanguage: Field,
    createdBy: string,
    createdAt: string,
    lastUsed: string)

  const DefaultLanguage: string := "English"

  /** The `values` of `createExerciseSet`, one per INSERT column. */
  function CreateValues(s: NewExerciseSet): (values: seq<Param>)
    ensures |values| == |InsertColumns|
  {
    [ Text(s.id), Text(s.title), Json(s.exercises),
      if Truthy(s.chatLanguage) then Raw(s.chatLanguage) else Text(DefaultLanguage),
      Text(s.createdBy), Text(s.createdAt), Text(s.lastUsed) ]
  }

  /**
   * `chat_language` is the set's language when truthy and `'English'` otherwise; every other
   * column gets the set's own property.
   */
  lemma CreateValuesByColumn(s: NewExerciseSet)
    ensures InsertColumns[3] == "chat_language"
    ensures CreateValues(s)[3] == Text(DefaultLanguage) <==> !Truthy(s.chatLanguage) || s.chatLanguage == Str(DefaultLanguage)
    ensures Truthy(s.chatLanguage) ==> CreateValues(s)[3] == Raw(s.chatLanguage)
    ensures !Truthy(s.chatLanguage) ==> CreateValues(s)[3] == Text(DefaultLanguage)
    ensures CreateValues(s)[0] == Text(s.id) && CreateValues(s)[1] == Text(s.title)
    ensures CreateValues(s)[2] == Json(s.exercises)
    ensures CreateValues(s)[4..] == [Text(s.createdBy), Text(s.createdAt), Text(s.lastUsed)]
  {
  }

  /** A `system_settings` row: its key and the two columns the application reads. */
  datatype SettingsRow = SettingsRow(id: int, llmModel: string, defaultChatInstruction: string)

  /** The settings `getSystemSettings` hands back: a row's two columns, or the built-in default. */
  datatype SettingsValue = SettingsValue(llmModel: string, defaultChatInstruction: string)

  const DefaultSettings: SettingsValue := SettingsValue("gpt-3.5-turbo", "Default instruction")

  function ValueOf(row: SettingsRow): SettingsValue {
    SettingsValue(row.llmModel, row.defaultChatInstruction)
  }

  /** `ORDER BY id DESC LIMIT 1`: a row whose id no other row exceeds. */
  function LatestRow(rows: seq<SettingsRow>): (r: SettingsRow)
    requires |rows| > 0
    ensures r in rows
    ensures forall i :: 0 <= i < |rows| ==> rows[i].id <= r.id
  {
    if |rows| == 1 then rows[0]
    else
      var rest := LatestRow(rows[1..]);
      if rows[0].id >= rest.id then rows[0] else rest
  }

  /**
   * `getSystemSettings`: the columns of the row with the greatest id, or the built-in default
   * when the table is empty.
   */
  function SystemSettings(rows: seq<SettingsRow>): (r: SettingsValue)
    ensures |rows| == 0 ==> r == DefaultSettings
    ensures |rows| > 0 ==>
              exists k :: 0 <= k < |rows| && r == ValueOf(rows[k]) && forall i :: 0 <= i < |rows| ==> rows[i].id <= rows[k].id
  {
    if |rows| == 0 then DefaultSettings else ValueOf(LatestRow(rows))
  }

  /** Ids are a key: the settings read are those of the one row with the greatest id. */
  lemma SystemSettingsOfGreatest(rows: seq<SettingsRow>, k: nat)
    requires k < |rows|
    requires forall i :: 0 <= i < |rows| && i != k ==> rows[i].id < rows[k].id
    ensures SystemSettings(rows) == ValueOf(rows[k])
  {
    var r := LatestRow(rows);
    var j :| 0 <= j < |rows| && rows[j] == r;
    assert rows[k].id <= r.id;
  }

  /** A row inserted with an id above every existing one is what is read next. */
  lemma InsertedRowRead(rows: seq<SettingsRow>, row: SettingsRow)
    requires forall i :: 0 <= i < |rows| ==> rows[i].id < row.id
    ensures SystemSettings(rows + [row]) == ValueOf(row)
  {
    var all := rows + [row];
    assert all[|rows|] == row;
    SystemSettingsOfGreatest(all, |rows|);
  }

  /**
   * The database's fallback agrees with the server's in-memory settings on the model but not
   * on the instruction: it is the placeholder `Default instruction`.
   */
  lemma DefaultRowAgainstServer()
    ensures DefaultSettings.llmModel == ServerStore.DefaultModel
    ensures DefaultSettings.defaultChatInstruction != ServerStore.DefaultInstruction
  {
    assert |DefaultSettings.defaultChatInstruction| < |ServerStore.DefaultInstruction|;
  }
}
