/**
 * The statements `_anonymize_table` sends for a table once its columns are
 * selected: one parameterised `UPDATE` per primary-key value, whose `SET`
 * list names every selected column and whose parameters are the freshly
 * generated values followed by the row's key.
 */
module Updates {
  import opened Wrappers
  import opened Text
  import opened Rules
  import opened Columns

  /** A query parameter: a generated fake value, or the primary-key value of the row (of any column type `K`). */
  datatype Param<K> = Value(text: string) | Key(key: K)

  /** An executed statement: the SQL text with `%s` placeholders and its parameters. */
  datatype Statement<K> = Statement(sql: string, params: seq<Param<K>>)

  /** How `_anonymize_table` ends for one table. */
  datatype TableOutcome<K> =
    | NoColumns      // no column matched any rule
    | NoPrimaryKey   // `SHOW KEYS ... 'PRIMARY'` returned nothing
    | NoRows         // the table is empty
    | Updated(statements: seq<Statement<K>>, count: nat, columns: nat)

  /** One entry of the `SET` list. */
  function SetClause(column: string): string {
    "`" + column + "` = %s"
  }

  /** The `SET` list entries for `columns`, in order. */
  function SetClauses(columns: seq<string>): (r: seq<string>)
    ensures |r| == |columns|
    ensures forall i :: 0 <= i < |columns| ==> r[i] == SetClause(columns[i])
  {
    seq(|columns|, i requires 0 <= i < |columns| => SetClause(columns[i]))
  }

  /** The statement text for one row. */
  function UpdateSql(table: string, setClauses: seq<string>, pkColumn: string): string {
    "UPDATE `" + table + "` SET " + Join(setClauses, ", ") + " WHERE `" + pkColumn + "` = %s"
  }

  /** The statement for one row: the `SET` list over `columns`, then the generated `values` and the key as parameters. */
  function RowStatement<K>(table: string, pkColumn: string, columns: seq<string>, values: seq<string>, key: K): Statement<K> {
    Statement(UpdateSql(table, SetClauses(columns), pkColumn),
              seq(|values|, i requires 0 <= i < |values| => Value(values[i])) + [Key(key)])
  }

  /** The values of one row: each selected column's rule applied to what its generator drew for column `j`. */
  function RowValues(selected: seq<Binding>, draw: (nat, Generator) -> string): (values: seq<string>)
    ensures |values| == |selected|
    ensures forall j :: 0 <= j < |selected| && selected[j].rule.generator.Fixed? ==>
      values[j] == selected[j].rule.generator.text
    ensures forall j :: 0 <= j < |selected| && !selected[j].rule.generator.Fixed? ==>
      values[j] == draw(j, selected[j].rule.generator)
  {
    var values := seq(|selected|, j requires 0 <= j < |selected| => Produce(selected[j].rule.generator, draw(j, selected[j].rule.generator)));
    assert forall j :: 0 <= j < |selected| ==> values[j] == Produce(selected[j].rule.generator, draw(j, selected[j].rule.generator));
    values
  }

  /**
   * The body of the loop over rows: one `SET` entry and one freshly produced
   * value per selected column, in selection order; when the `SET` list is
   * non-empty, the key is appended and the statement is issued. `draw(j, g)`
   * is what generator `g` yields when called for the `j`-th selected column
   * of this row; a rule with a fixed text ignores it.
   */
  method BuildRowUpdate<K>(table: string, pkColumn: string, selected: seq<Binding>, key: K, draw: (nat, Generator) -> string)
    returns (stmt: Option<Statement<K>>)
    ensures stmt.Some? <==> |selected| > 0
    ensures stmt.Some? ==>
      stmt.value == RowStatement(table, pkColumn, FieldsOf(selected), RowValues(selected, draw), key)
    ensures stmt.Some? ==> forall j :: 0 <= j < |selected| ==>
      && |stmt.value.params| == |selected| + 1
      && (selected[j].rule.generator.Fixed? ==> stmt.value.params[j] == Value(selected[j].rule.generator.text))
      && (!selected[j].rule.generator.Fixed? ==> stmt.value.params[j] == Value(draw(j, selected[j].rule.generator)))
  {
    var updates: seq<string> := [];
    var values: seq<Param<K>> := [];
    var j := 0;
    while j < |selected|
      invariant 0 <= j <= |selected|
      invariant updates == SetClauses(FieldsOf(selected)[..j])
      invariant |values| == j
      invariant forall i :: 0 <= i < j ==> values[i] == Value(RowValues(selected, draw)[i])
    {
      var generator := selected[j].rule.generator;
      updates := updates + [SetClause(selected[j].field)];
      values := values + [Value(Produce(generator, draw(j, generator)))];
      j := j + 1;
    }
    assert FieldsOf(selected)[..j] == FieldsOf(selected);
    ghost var expected := RowStatement(table, pkColumn, FieldsOf(selected), RowValues(selected, draw), key);
    RowStatementShape(table, pkColumn, FieldsOf(selected), RowValues(selected, draw), key);
    if |updates| > 0 {
      values := values + [Key(key)];
      var sql := "UPDATE `" + table + "` SET " + Join(updates, ", ") + " WHERE `" + pkColumn + "` = %s";
      assert values == expected.params;
      stmt := Some(Statement(sql, values));
      forall i | 0 <= i < |selected|
        ensures stmt.value.params[i] == Value(RowValues(selected, draw)[i])
      {
      }
    } else {
      stmt := None;
    }
  }

  /**
   * `_anonymize_table` after `DESCRIBE`: select the columns; stop when none
   * is selected, when the table has no primary key, or when it has no rows;
   * otherwise issue one statement per row, counting them. `fields` are the
   * column names in `DESCRIBE` order, `primaryKeys` the key columns `SHOW KEYS`
   * lists (the first is used), `rows` the key values `SELECT` returns, and
   * `draw(r, j, g)` what generator `g` yields for row `r` and selected column `j`.
   */
  method AnonymizeTable<K>(table: string, fields: seq<string>, rules: seq<Rule>, primaryKeys: seq<string>,
                           rows: seq<K>, draw: (nat, nat, Generator) -> string)
    returns (outcome: TableOutcome<K>)
    ensures outcome.NoColumns? <==> Selection(fields, rules) == []
    ensures outcome.NoPrimaryKey? <==> Selection(fields, rules) != [] && primaryKeys == []
    ensures outcome.NoRows? <==> Selection(fields, rules) != [] && primaryKeys != [] && rows == []
    ensures outcome.Updated? ==>
      && outcome.count == |outcome.statements| == |rows|
      && outcome.columns == |Selection(fields, rules)|
      && forall r :: 0 <= r < |rows| ==>
           (outcome.statements[r] == RowStatement(table, primaryKeys[0], FieldsOf(Selection(fields, rules)),
                                                  RowValues(Selection(fields, rules), (j: nat, g: Generator) => draw(r, j, g)), rows[r]))
  {
    var selected := SelectColumns(fields, rules);
    if |selected| == 0 {
      return NoColumns;
    }
    if |primaryKeys| == 0 {
      return NoPrimaryKey;
    }
    var pkColumn := primaryKeys[0];
    if |rows| == 0 {
      return NoRows;
    }
    var count := 0;
    var statements: seq<Statement<K>> := [];
    var r := 0;
    while r < |rows|
      invariant 0 <= r <= |rows|
      invariant count == |statements| == r
      invariant forall i :: 0 <= i < r ==>
        (statements[i] == RowStatement(table, pkColumn, FieldsOf(selected), RowValues(selected, (j: nat, g: Generator) => draw(i, j, g)), rows[i]))
    {
      var row := r;
      var stmt := BuildRowUpdate(table, pkColumn, selected, rows[r], (j: nat, g: Generator) => draw(row, j, g));
      if stmt.Some? {
        statements := statements + [stmt.value];
        count := count + 1;
      }
      r := r + 1;
    }
    outcome := Updated(statements, count, |selected|);
  }

  /**
   * The shape of every row's statement: one parameter per selected column,
   * carrying that column's generated value in selection order, then the key
   * last; and the `SET` list is one backquoted `col = %s` entry per column.
   */
  lemma RowStatementShape<K>(table: string, pkColumn: string, columns: seq<string>, values: seq<string>, key: K)
    requires |values| == |columns|
    ensures var st := RowStatement(table, pkColumn, columns, values, key);
      && |st.params| == |columns| + 1
      && st.params[|columns|] == Key(key)
      && (forall j :: 0 <= j < |columns| ==> st.params[j] == Value(values[j]))
  {
  }

  /** A `SET` entry adds one `%` to those of the column name. */
  lemma SetClausePercent(column: string)
    ensures CountChar(SetClause(column), '%') == CountChar(column, '%') + 1
  {
    assert CountChar("`", '%') == 0;
    assert CountChar("` = %s", '%') == 1;
    CountCharConcat("`", column, '%');
    CountCharConcat("`" + column, "` = %s", '%');
  }

  /** The text up to the `SET` list adds no `%` to the table name. */
  lemma HeadPercent(table: string)
    ensures CountChar("UPDATE `" + table + "` SET ", '%') == CountChar(table, '%')
  {
    assert CountChar("UPDATE `", '%') == 0 && CountChar("` SET ", '%') == 0;
    CountCharConcat("UPDATE `", table, '%');
    CountCharConcat("UPDATE `" + table, "` SET ", '%');
  }

  /** The text after the `SET` list adds one `%` to the key column name. */
  lemma TailPercent(pkColumn: string)
    ensures CountChar(" WHERE `" + pkColumn + "` = %s", '%') == CountChar(pkColumn, '%') + 1
  {
    assert CountChar(" WHERE `", '%') == 0 && CountChar("` = %s", '%') == 1;
    CountCharConcat(" WHERE `", pkColumn, '%');
    CountCharConcat(" WHERE `" + pkColumn, "` = %s", '%');
  }

  /** The statement text adds one `%` to those of the table, the `SET` list and the key column. */
  lemma UpdateSqlPercent(table: string, setClauses: seq<string>, pkColumn: string)
    ensures CountChar(UpdateSql(table, setClauses, pkColumn), '%') ==
      CountChar(table, '%') + CountChar(Join(setClauses, ", "), '%') + CountChar(pkColumn, '%') + 1
  {
    var head := "UPDATE `" + table + "` SET ";
    var setList := Join(setClauses, ", ");
    var tail := " WHERE `" + pkColumn + "` = %s";
    assert UpdateSql(table, setClauses, pkColumn) == head + setList + tail;
    HeadPercent(table);
    TailPercent(pkColumn);
    CountCharConcat(head, setList, '%');
    CountCharConcat(head + setList, tail, '%');
  }

  /**
   * Placeholders and parameters agree: when the table, key column and
   * selected column names hold no `%`, the statement has exactly one `%`
   * (of a `%s`) per parameter.
   */
  lemma PlaceholdersMatchParams<K>(table: string, pkColumn: string, columns: seq<string>, values: seq<string>, key: K)
    requires |values| == |columns| > 0
    requires CountChar(table, '%') == 0 && CountChar(pkColumn, '%') == 0
    requires forall i :: 0 <= i < |columns| ==> CountChar(columns[i], '%') == 0
    ensures var st := RowStatement(table, pkColumn, columns, values, key);
      CountChar(st.sql, '%') == |st.params|
  {
    var clauses := SetClauses(columns);
    forall i | 0 <= i < |clauses| ensures CountChar(clauses[i], '%') == 1 {
      SetClausePercent(columns[i]);
    }
    assert CountChar(", ", '%') == 0;
    CountCharJoin(clauses, ", ", '%', 1);
    UpdateSqlPercent(table, clauses, pkColumn);
  }
}
